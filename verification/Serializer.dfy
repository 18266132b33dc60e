/** Values as XML-RPC documents, and the serializer that writes them. */
module Serializer {
  import opened Bytes
  import opened Outcomes
  import opened Sequences
  import opened Values
  import opened Numerals
  import opened XmlTree
  import opened XmlText
  import opened HeapState
  import opened ValueHeap
  import opened Denotation
  import B64 = Base64

  /** The C library's way of printing and of reading floating-point numbers. */
  datatype Floats = Floats(show: real -> seq<byte>, read: seq<byte> -> Result<real, Fault>)

  ghost predicate PrintsPlainly(floats: Floats) {
    forall d :: Plain(floats.show(d))
  }

  predicate HasPointer(v: Value) {
    match v
    case Atom(s) => s.Pointer?
    case ArrayOf(vs) => exists i :: 0 <= i < |vs| && HasPointer(vs[i])
    case StructOf(es) => exists i :: 0 <= i < |es| && EntryHasPointer(es[i])
  }

  predicate EntryHasPointer(e: Entry) {
    HasPointer(e.value)
  }

  /** What stands inside the value element for a value that contains no others. */
  function ScalarMarkup(s: Scalar, floats: Floats): Markup {
    match s
    case Int(i) => Tag("i4", [Text(Decimal(i))])
    case Bool(b) => Tag("boolean", [Text(Decimal(if b then 1 else 0))])
    case Double(d) => Tag("double", [Text(floats.show(d))])
    case DateTime(stamp) => Tag("dateTime.iso8601", [Text(stamp)])
    case String(text) => Tag("string", [Text(text)])
    case Base64(data) => Tag("base64", [Text(CRLF), Text(B64.Encoded(data, true))])
    case Nil => Tag("nil", [])
    case Pointer(_) => Text([])
  }

  function MarkupOf(v: Value, floats: Floats): Markup
    decreases v
  {
    match v
    case Atom(s) => Tag("value", [ScalarMarkup(s, floats)])
    case ArrayOf(vs) => Tag("value", [Tag("array", [Tag("data", [Text(CRLF)] + ItemsMarkup(vs, floats))])])
    case StructOf(es) => Tag("value", [Tag("struct", [Text(CRLF)] + EntriesMarkup(es, floats))])
  }

  function ItemsMarkup(vs: seq<Value>, floats: Floats): seq<Markup>
    decreases vs
  {
    if vs == [] then [] else [MarkupOf(vs[0], floats), Text(CRLF)] + ItemsMarkup(vs[1..], floats)
  }

  function EntryMarkup(e: Entry, floats: Floats): Markup
    decreases e
  {
    Tag("member", [Tag("name", [Text(e.key)]), Text(CRLF), MarkupOf(e.value, floats)])
  }

  function EntriesMarkup(es: seq<Entry>, floats: Floats): seq<Markup>
    decreases es
  {
    if es == [] then [] else [EntryMarkup(es[0], floats), Text(CRLF)] + EntriesMarkup(es[1..], floats)
  }

  // ----- the text of these documents -----

  lemma RenderCons(m: Markup, rest: seq<Markup>)
    ensures RenderAll([m] + rest) == Render(m) + RenderAll(rest)
  {
    assert ([m] + rest)[1..] == rest;
  }

  lemma RenderCrlf()
    ensures Render(Text(CRLF)) == CRLF
  {
    EscapePlain(CRLF);
  }

  lemma RenderWrapped(outer: string, m: Markup)
    ensures Render(Tag(outer, [m])) == Open(outer) + Render(m) + Shut(outer)
  {
    assert [m] + [] == [m];
    RenderCons(m, []);
    assert RenderAll([]) == [];
    ConcatEmpty(Render(m));
  }

  /** An element that starts on a new line. */
  lemma RenderBroken(outer: string, rest: seq<Markup>)
    ensures Render(Tag(outer, [Text(CRLF)] + rest)) == Open(outer) + (CRLF + RenderAll(rest)) + Shut(outer)
  {
    RenderCrlf();
    RenderCons(Text(CRLF), rest);
  }

  lemma RenderItems(vs: seq<Value>, floats: Floats, i: nat)
    requires i < |vs|
    ensures RenderAll(ItemsMarkup(vs[i..], floats))
         == Render(MarkupOf(vs[i], floats)) + CRLF + RenderAll(ItemsMarkup(vs[i + 1..], floats))
  {
    var m, rest := MarkupOf(vs[i], floats), ItemsMarkup(vs[i + 1..], floats);
    assert vs[i..][1..] == vs[i + 1..];
    assert [m, Text(CRLF)] + rest == [m] + ([Text(CRLF)] + rest);
    hide Render, RenderAll, MarkupOf;
    RenderCons(m, [Text(CRLF)] + rest);
    RenderCons(Text(CRLF), rest);
    RenderCrlf();
    ConcatAssociative(Render(m), CRLF, RenderAll(rest));
  }

  lemma RenderEntries(es: seq<Entry>, floats: Floats, i: nat)
    requires i < |es|
    ensures RenderAll(EntriesMarkup(es[i..], floats))
         == Render(EntryMarkup(es[i], floats)) + CRLF + RenderAll(EntriesMarkup(es[i + 1..], floats))
  {
    var m, rest := EntryMarkup(es[i], floats), EntriesMarkup(es[i + 1..], floats);
    assert es[i..][1..] == es[i + 1..];
    assert [m, Text(CRLF)] + rest == [m] + ([Text(CRLF)] + rest);
    hide Render, RenderAll, EntryMarkup;
    RenderCons(m, [Text(CRLF)] + rest);
    RenderCons(Text(CRLF), rest);
    RenderCrlf();
    ConcatAssociative(Render(m), CRLF, RenderAll(rest));
  }

  lemma Nested(a: seq<byte>, b: seq<byte>, c: seq<byte>, body: seq<byte>, d: seq<byte>, e: seq<byte>)
    ensures a + (b + (c + body) + d) + e == (a + b + c) + body + (d + e)
  {}

  lemma ArrayTags()
    ensures Open("array") + Open("data") + CRLF == Ascii("<array><data>\r\n")
    ensures Shut("data") + Shut("array") == Ascii("</data></array>")
  {}

  lemma RenderArray(vs: seq<Value>, floats: Floats)
    ensures Render(MarkupOf(ArrayOf(vs), floats))
         == Open("value") + (Ascii("<array><data>\r\n") + RenderAll(ItemsMarkup(vs, floats)) + Ascii("</data></array>"))
            + Shut("value")
  {
    var items := ItemsMarkup(vs, floats);
    var data := Tag("data", [Text(CRLF)] + items);
    hide Render, RenderAll, Open, Shut, Ascii;
    RenderWrapped("value", Tag("array", [data]));
    RenderWrapped("array", data);
    RenderBroken("data", items);
    Nested(Open("array"), Open("data"), CRLF, RenderAll(items), Shut("data"), Shut("array"));
    ArrayTags();
  }

  lemma StructTags()
    ensures Open("struct") + CRLF == Ascii("<struct>\r\n")
  {}

  lemma RenderStruct(es: seq<Entry>, floats: Floats)
    ensures Render(MarkupOf(StructOf(es), floats))
         == Open("value") + (Ascii("<struct>\r\n") + RenderAll(EntriesMarkup(es, floats)) + Shut("struct"))
            + Shut("value")
  {
    var entries := EntriesMarkup(es, floats);
    var record := Tag("struct", [Text(CRLF)] + entries);
    hide Render, RenderAll, Open, Shut, Ascii;
    RenderWrapped("value", record);
    RenderBroken("struct", entries);
    ConcatAssociative(Open("struct"), CRLF, RenderAll(entries));
    StructTags();
  }

  lemma EntryTags()
    ensures Open("member") + Open("name") == Ascii("<member><name>")
    ensures Shut("name") + CRLF == Ascii("</name>\r\n")
    ensures Shut("member") + CRLF == Ascii("</member>\r\n")
  {}

  lemma EntryNested(a: seq<byte>, b: seq<byte>, key: seq<byte>, c: seq<byte>, d: seq<byte>, v: seq<byte>, e: seq<byte>)
    ensures a + ((b + key + c) + (d + v)) + e == (a + b) + key + (c + d) + v + e
  {}

  lemma RenderEntry(e: Entry, floats: Floats)
    ensures Render(EntryMarkup(e, floats)) + CRLF
         == Ascii("<member><name>") + Escape(e.key) + Ascii("</name>\r\n") + Render(MarkupOf(e.value, floats))
            + Ascii("</member>\r\n")
  {
    var name, value := Tag("name", [Text(e.key)]), MarkupOf(e.value, floats);
    RenderCons(name, [Text(CRLF), value]);
    RenderCons(Text(CRLF), [value]);
    RenderCons(value, []);
    RenderCrlf();
    RenderWrapped("name", Text(e.key));
    assert [name, Text(CRLF), value] == [name] + [Text(CRLF), value];
    assert [Text(CRLF), value] == [Text(CRLF)] + [value];
    assert [value] + [] == [value];
    var shown := Render(value);
    assert RenderAll([]) == [];
    ConcatEmpty(shown);
    assert Render(EntryMarkup(e, floats))
        == Open("member") + ((Open("name") + Escape(e.key) + Shut("name")) + (CRLF + shown)) + Shut("member");
    hide Render, RenderAll, Open, Shut, Ascii, EntryMarkup, Escape;
    EntryNested(Open("member"), Open("name"), Escape(e.key), Shut("name"), CRLF, shown, Shut("member"));
    EntryTags();
    ConcatAssociative(Ascii("<member><name>") + Escape(e.key) + Ascii("</name>\r\n") + shown, Shut("member"), CRLF);
  }

  // ----- scalars as text -----

  lemma LinePlain(p: seq<byte>)
    ensures Plain(B64.Line(p))
  {}

  lemma {:induction false} EncodedPlain(data: seq<byte>)
    ensures Plain(B64.Encoded(data, true))
    decreases |data|
  {
    hide B64.Line;
    if data != [] {
      LinePlain(data);
      if |data| > B64.MAX_BIN {
        LinePlain(data[..B64.MAX_BIN]);
        EncodedPlain(data[B64.MAX_BIN..]);
      }
    }
  }

  lemma DecimalPlain(i: int)
    ensures Plain(Decimal(i))
  {
    DigitsRead(if i < 0 then -i else i);
  }

  /** The text of a scalar as the format strings of the serializer spell it. */
  function ScalarText(s: Scalar, floats: Floats): seq<byte>
    requires !s.Pointer?
  {
    match s
    case Int(i) => Ascii("<i4>") + Decimal(i) + Ascii("</i4>")
    case Bool(b) => Ascii("<boolean>") + Decimal(if b then 1 else 0) + Ascii("</boolean>")
    case Double(d) => Ascii("<double>") + floats.show(d) + Ascii("</double>")
    case DateTime(stamp) => Ascii("<dateTime.iso8601>") + Escape(stamp) + Ascii("</dateTime.iso8601>")
    case String(text) => Ascii("<string>") + Escape(text) + Ascii("</string>")
    case Base64(data) => Ascii("<base64>\r\n") + B64.Encoded(data, true) + Ascii("</base64>")
    case Nil => Ascii("<nil/>")
  }

  lemma Tags(name: string, open: string, shut: string)
    requires open == "<" + name + ">" && shut == "</" + name + ">"
    ensures Open(name) == Ascii(open) && Shut(name) == Ascii(shut)
  {}

  lemma NumberTags()
    ensures Open("i4") == Ascii("<i4>") && Shut("i4") == Ascii("</i4>")
    ensures Open("boolean") == Ascii("<boolean>") && Shut("boolean") == Ascii("</boolean>")
    ensures Open("double") == Ascii("<double>") && Shut("double") == Ascii("</double>")
  {
    hide Ascii, Open, Shut;
    Tags("i4", "<i4>", "</i4>");
    Tags("boolean", "<boolean>", "</boolean>");
    Tags("double", "<double>", "</double>");
  }

  lemma TextTags()
    ensures Open("dateTime.iso8601") == Ascii("<dateTime.iso8601>")
    ensures Shut("dateTime.iso8601") == Ascii("</dateTime.iso8601>")
    ensures Open("string") == Ascii("<string>") && Shut("string") == Ascii("</string>")
  {
    hide Ascii, Open, Shut;
    Tags("dateTime.iso8601", "<dateTime.iso8601>", "</dateTime.iso8601>");
    Tags("string", "<string>", "</string>");
  }

  lemma Base64Tags()
    ensures Open("base64") + CRLF == Ascii("<base64>\r\n") && Shut("base64") == Ascii("</base64>")
  {
    Tags("base64", "<base64>", "</base64>");
  }

  lemma NilTag()
    ensures Ascii("<" + "nil" + "/>") == Ascii("<nil/>")
  {
    assert "<" + "nil" + "/>" == "<nil/>";
  }

  lemma ContainerTags()
    ensures Open("value") == Ascii("<value>") && Shut("value") == Ascii("</value>")
    ensures Shut("struct") == Ascii("</struct>")
  {
    hide Ascii, Open, Shut;
    Tags("value", "<value>", "</value>");
    Tags("struct", "<struct>", "</struct>");
  }

  lemma RenderScalar(s: Scalar, floats: Floats)
    requires !s.Pointer? && PrintsPlainly(floats)
    ensures Render(ScalarMarkup(s, floats)) == ScalarText(s, floats)
  {
    NumberTags();
    TextTags();
    Base64Tags();
    NilTag();
    hide Open, Shut, Ascii, Escape;
    match s {
      case Int(i) => DecimalPlain(i); EscapePlain(Decimal(i)); RenderWrapped("i4", Text(Decimal(i)));
      case Bool(b) =>
        var d := Decimal(if b then 1 else 0);
        DecimalPlain(if b then 1 else 0); EscapePlain(d); RenderWrapped("boolean", Text(d));
      case Double(d) => EscapePlain(floats.show(d)); RenderWrapped("double", Text(floats.show(d)));
      case DateTime(stamp) => RenderWrapped("dateTime.iso8601", Text(stamp));
      case String(text) => RenderWrapped("string", Text(text));
      case Base64(data) =>
        var e := B64.Encoded(data, true);
        EncodedPlain(data); EscapePlain(e);
        hide Render, RenderAll;
        assert [Text(CRLF), Text(e)] == [Text(CRLF)] + [Text(e)];
        RenderBroken("base64", [Text(e)]);
        RenderJust(e);
        ConcatAssociative(Open("base64"), CRLF, e);
      case Nil =>
    }
  }

  lemma RenderJust(text: seq<byte>)
    ensures RenderAll([Text(text)]) == Escape(text)
  {
    ConcatEmpty(Escape(text));
  }

  // ----- the serializer -----

  /** A scalar is printed; a pointer cannot be. */
  method SerializeScalar(output: seq<byte>, s: Scalar, floats: Floats) returns (r: Result<seq<byte>, Fault>)
    requires PrintsPlainly(floats)
    ensures r == if s.Pointer? then Err(InternalError) else Ok(output + Render(ScalarMarkup(s, floats)))
  {
    if s.Pointer? {
      return Err(InternalError);
    }
    RenderScalar(s, floats);
    hide Render, ScalarMarkup, Escape, Ascii;
    match s {
      case Int(i) => r := Ok(output + (Ascii("<i4>") + Decimal(i) + Ascii("</i4>")));
      case Bool(b) => r := Ok(output + (Ascii("<boolean>") + Decimal(if b then 1 else 0) + Ascii("</boolean>")));
      case Double(d) => r := Ok(output + (Ascii("<double>") + floats.show(d) + Ascii("</double>")));
      case DateTime(stamp) =>
        var escaped := EscapeForXml(stamp);
        r := Ok(output + (Ascii("<dateTime.iso8601>") + escaped[..] + Ascii("</dateTime.iso8601>")));
      case String(text) =>
        var escaped := EscapeForXml(text);
        r := Ok(output + (Ascii("<string>") + escaped[..] + Ascii("</string>")));
      case Base64(data) =>
        var encoded := B64.Encode(data, true);
        r := Ok(output + (Ascii("<base64>\r\n") + encoded + Ascii("</base64>")));
      case Nil => r := Ok(output + Ascii("<nil/>"));
    }
  }

  /**
    What is appended is the text of the value's document, and the heap is as before although items are
    fetched through references that are taken and dropped again.
  */
  method SerializeValue(h: Heap, output: seq<byte>, a: Addr, floats: Floats, ghost v: Value)
    returns (r: Result<seq<byte>, Fault>)
    requires h.Valid() && Denotes(h.cells, 0, a, v) && PrintsPlainly(floats)
    modifies h
    ensures h.Valid() && h.cells == old(h.cells) && h.held == old(h.held) && h.next == old(h.next)
    ensures r == if HasPointer(v) then Err(InternalError) else Ok(output + Render(MarkupOf(v, floats)))
    decreases v, 1
  {
    ContainerTags();
    hide Render, Ascii, Consistent, MarkupOf;
    var out := output + Ascii("<value>");
    match h.cells[a].content {
      case Leaf(scalar) =>
        r := SerializeScalar(out, scalar, floats);
        if r.Ok? {
          RenderAtom(scalar, floats);
          Enclosed(output, Open("value"), Render(ScalarMarkup(scalar, floats)), Shut("value"));
        }
      case Array(_) =>
        r := SerializeItems(h, out, a, floats, v);
        if r.Ok? {
          RenderArray(v.items, floats);
          Enclosed(output, Open("value"), ArrayText(v.items, floats), Shut("value"));
        }
      case Struct(_) =>
        r := SerializeStruct(h, out, a, floats, v);
        if r.Ok? {
          RenderStruct(v.entries, floats);
          Enclosed(output, Open("value"), StructText(v.entries, floats), Shut("value"));
        }
    }
    if r.Ok? {
      r := Ok(r.value + Ascii("</value>"));
    }
  }

  lemma Enclosed(output: seq<byte>, start: seq<byte>, body: seq<byte>, finish: seq<byte>)
    ensures output + start + body + finish == output + (start + body + finish)
  {}

  lemma RenderAtom(s: Scalar, floats: Floats)
    ensures Render(MarkupOf(Atom(s), floats)) == Open("value") + Render(ScalarMarkup(s, floats)) + Shut("value")
  {
    RenderWrapped("value", ScalarMarkup(s, floats));
  }

  function ArrayText(vs: seq<Value>, floats: Floats): seq<byte> {
    Ascii("<array><data>\r\n") + RenderAll(ItemsMarkup(vs, floats)) + Ascii("</data></array>")
  }

  function StructText(es: seq<Entry>, floats: Floats): seq<byte> {
    Ascii("<struct>\r\n") + RenderAll(EntriesMarkup(es, floats)) + Shut("struct")
  }

  method SerializeItems(h: Heap, output: seq<byte>, a: Addr, floats: Floats, ghost v: Value)
    returns (r: Result<seq<byte>, Fault>)
    requires h.Valid() && Denotes(h.cells, 0, a, v) && v.ArrayOf? && PrintsPlainly(floats)
    modifies h
    ensures h.Valid() && h.cells == old(h.cells) && h.held == old(h.held) && h.next == old(h.next)
    ensures r == if HasPointer(v) then Err(InternalError) else Ok(output + ArrayText(v.items, floats))
    decreases v, 0
  {
    hide Render, RenderAll, Ascii, Consistent, MarkupOf, ItemsMarkup;
    ghost var vs := v.items;
    var out := output + Ascii("<array><data>\r\n");
    var size := |h.cells[a].content.items|;
    ghost var all := RenderAll(ItemsMarkup(vs, floats));
    assert vs[0..] == vs;
    for i := 0 to size
      invariant h.Valid() && h.cells == old(h.cells) && h.held == old(h.held) && h.next == old(h.next)
      invariant forall j :: 0 <= j < i ==> !HasPointer(vs[j])
      invariant out + RenderAll(ItemsMarkup(vs[i..], floats)) == output + Ascii("<array><data>\r\n") + all
    {
      var item := h.ArrayGetItem(a, i);
      assert Denotes(h.cells, 0, item.value, vs[i]);
      var next := SerializeValue(h, out, item.value, floats, vs[i]);
      if next.Err? {
        return next;
      }
      RenderItems(vs, floats, i);
      Spliced(out, Render(MarkupOf(vs[i], floats)), CRLF, RenderAll(ItemsMarkup(vs[i + 1..], floats)));
      out := next.value + CRLF;
    }
    NoItems(vs[size..], floats);
    ConcatEmpty(out);
    Enclosed(output, Ascii("<array><data>\r\n"), all, Ascii("</data></array>"));
    r := Ok(out + Ascii("</data></array>"));
  }

  lemma NoItems(vs: seq<Value>, floats: Floats)
    requires vs == []
    ensures RenderAll(ItemsMarkup(vs, floats)) == []
  {}

  lemma NoEntries(es: seq<Entry>, floats: Floats)
    requires es == []
    ensures RenderAll(EntriesMarkup(es, floats)) == []
  {}

  lemma Spliced(out: seq<byte>, shown: seq<byte>, gap: seq<byte>, rest: seq<byte>)
    ensures out + (shown + gap + rest) == (out + shown + gap) + rest
  {}

  method SerializeStruct(h: Heap, output: seq<byte>, a: Addr, floats: Floats, ghost v: Value)
    returns (r: Result<seq<byte>, Fault>)
    requires h.Valid() && Denotes(h.cells, 0, a, v) && v.StructOf? && PrintsPlainly(floats)
    modifies h
    ensures h.Valid() && h.cells == old(h.cells) && h.held == old(h.held) && h.next == old(h.next)
    ensures r == if HasPointer(v) then Err(InternalError) else Ok(output + StructText(v.entries, floats))
    decreases v, 0
  {
    ContainerTags();
    hide Render, RenderAll, Ascii, Consistent, MarkupOf, EntriesMarkup, EntryMarkup;
    ghost var es := v.entries;
    var out := output + Ascii("<struct>\r\n");
    var size := |h.cells[a].content.members|;
    ghost var all := RenderAll(EntriesMarkup(es, floats));
    assert es[0..] == es;
    for i := 0 to size
      invariant h.Valid() && h.cells == old(h.cells) && h.held == old(h.held) && h.next == old(h.next)
      invariant forall j :: 0 <= j < i ==> !EntryHasPointer(es[j])
      invariant out + RenderAll(EntriesMarkup(es[i..], floats)) == output + Ascii("<struct>\r\n") + all
    {
      var member := h.StructGetKeyAndValue(a, i);
      var key, value := member.value.0, member.value.1;
      assert MemberDenotes(h.cells, 0, h.cells[a].content.members[i], es[i]);
      ghost var e := es[i];
      var escaped := EscapeForXml(h.cells[key].content.scalar.text);
      var begun := out + Ascii("<member><name>") + escaped[..] + Ascii("</name>\r\n");
      var next := SerializeValue(h, begun, value, floats, e.value);
      if next.Err? {
        assert EntryHasPointer(es[i]);
        return next;
      }
      RenderEntries(es, floats, i);
      RenderEntry(e, floats);
      EntrySpliced(out, Ascii("<member><name>"), Escape(e.key), Ascii("</name>\r\n"), Render(MarkupOf(e.value, floats)),
                   Ascii("</member>\r\n"), RenderAll(EntriesMarkup(es[i + 1..], floats)));
      out := next.value + Ascii("</member>\r\n");
    }
    NoEntries(es[size..], floats);
    ConcatEmpty(out);
    Enclosed(output, Ascii("<struct>\r\n"), all, Ascii("</struct>"));
    r := Ok(out + Ascii("</struct>"));
  }

  lemma EntrySpliced(out: seq<byte>, a: seq<byte>, key: seq<byte>, b: seq<byte>, v: seq<byte>, c: seq<byte>,
                     rest: seq<byte>)
    ensures out + (a + key + b + v + c + rest) == (out + a + key + b + v + c) + rest
  {}
}
