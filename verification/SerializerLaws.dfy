/** The text of every value, letter by letter, and the element trees and events behind it. */
module SerializerLaws {
  import opened Bytes
  import opened Outcomes
  import opened Sequences
  import opened Values
  import opened Numerals
  import opened XmlTree
  import opened XmlText
  import opened Serializer
  import opened ConverterLaws
  import B64 = Base64

  // ----- characters -----

  lemma AsciiIs(s: string)
    requires forall i :: 0 <= i < |s| ==> s[i] as int < 128
    ensures |Ascii(s)| == |s| && forall i :: 0 <= i < |s| ==> Ascii(s)[i] as int == s[i] as int
  {}

  /** Three characters are replaced by references, and all others stay as they are. */
  lemma EscapeIs(s: seq<byte>)
    requires s != []
    ensures Escape(s) ==
              (if s[0] == '<' as int then ['&' as int, 'l' as int, 't' as int, ';' as int]
               else if s[0] == '>' as int then ['&' as int, 'g' as int, 't' as int, ';' as int]
               else if s[0] == '&' as int then ['&' as int, 'a' as int, 'm' as int, 'p' as int, ';' as int]
               else [s[0]]) + Escape(s[1..])
  {}

  /** A number is written with its figures, no zero in front, and a minus sign if it is negative. */
  lemma DecimalIs(i: int)
    ensures i < 0 ==> Decimal(i) == ['-' as int] + Decimal(-i)
    ensures i >= 0 ==> AreFigures(Decimal(i)) && Placed(Decimal(i)) == i && Decimal(i) != []
    ensures i > 0 ==> Decimal(i)[0] != '0' as int
    ensures Decimal(0) == ['0' as int]
  {
    if i >= 0 {
      DigitsRead(i);
      NumberIs(Digits(i));
      if i > 0 { NoZeroFirst(i); }
    }
  }

  lemma {:induction false} NoZeroFirst(n: nat)
    requires n > 0
    ensures Digits(n)[0] != '0' as int
  {
    if n >= 10 {
      NoZeroFirst(n / 10);
    }
  }

  // ----- scalars -----

  /** A typed text inside a value element. */
  lemma Typed3(name: string, text: seq<byte>, open: string, shut: string)
    requires open == "<value><" + name + ">" && shut == "</" + name + "></value>"
    ensures Open("value") + (Open(name) + text + Shut(name)) + Shut("value") == Ascii(open) + text + Ascii(shut)
  {
    assert Ascii(open) == Open("value") + Open(name) && Ascii(shut) == Shut(name) + Shut("value");
    Regroup5(Open("value"), Open(name), text, Shut(name), Shut("value"));
  }

  lemma Regroup5(a: seq<byte>, b: seq<byte>, c: seq<byte>, d: seq<byte>, e: seq<byte>)
    ensures a + (b + c + d) + e == (a + b) + c + (d + e)
  {}

  lemma TypedText(name: string, text: seq<byte>, open: string, shut: string)
    requires open == "<value><" + name + ">" && shut == "</" + name + "></value>"
    ensures Render(Tag("value", [Tag(name, [Text(text)])])) == Ascii(open) + Escape(text) + Ascii(shut)
  {
    Typed3(name, Escape(text), open, shut);
    hide Escape, Open, Shut, Ascii;
    RenderWrapped(name, Text(text));
    RenderWrapped("value", Tag(name, [Text(text)]));
  }

  lemma IntegerSpelled(i: int, floats: Floats)
    ensures Render(MarkupOf(Atom(Int(i)), floats)) == Ascii("<value><i4>") + Decimal(i) + Ascii("</i4></value>")
  {
    DecimalPlain(i);
    EscapePlain(Decimal(i));
    hide Ascii, Escape, Render, Decimal;
    TypedText("i4", Decimal(i), "<value><i4>", "</i4></value>");
  }

  lemma BooleanSpelled(b: bool, floats: Floats)
    ensures Render(MarkupOf(Atom(Bool(b)), floats))
         == Ascii("<value><boolean>") + [if b then '1' as int else '0' as int] + Ascii("</boolean></value>")
  {
    var bit := Decimal(if b then 1 else 0);
    assert bit == [if b then '1' as int else '0' as int];
    EscapePlain(bit);
    hide Ascii, Escape, Render, Decimal;
    TypedText("boolean", bit, "<value><boolean>", "</boolean></value>");
  }

  lemma DoubleSpelled(d: real, floats: Floats)
    requires PrintsPlainly(floats)
    ensures Render(MarkupOf(Atom(Double(d)), floats))
         == Ascii("<value><double>") + floats.show(d) + Ascii("</double></value>")
  {
    EscapePlain(floats.show(d));
    hide Ascii, Escape, Render;
    TypedText("double", floats.show(d), "<value><double>", "</double></value>");
  }

  lemma StringSpelled(text: seq<byte>, floats: Floats)
    ensures Render(MarkupOf(Atom(String(text)), floats))
         == Ascii("<value><string>") + Escape(text) + Ascii("</string></value>")
  {
    hide Ascii, Escape, Render;
    TypedText("string", text, "<value><string>", "</string></value>");
  }

  lemma DateTimeSpelled(stamp: seq<byte>, floats: Floats)
    ensures Render(MarkupOf(Atom(DateTime(stamp)), floats))
         == Ascii("<value><dateTime.iso8601>") + Escape(stamp) + Ascii("</dateTime.iso8601></value>")
  {
    hide Ascii, Escape, Render;
    TypedText("dateTime.iso8601", stamp, "<value><dateTime.iso8601>", "</dateTime.iso8601></value>");
  }

  lemma NilSpelled(floats: Floats)
    ensures Render(MarkupOf(Atom(Nil), floats)) == Ascii("<value><nil/></value>")
  {
    RenderWrapped("value", Tag("nil", []));
    assert Render(Tag("nil", [])) == Ascii("<" + "nil" + "/>");
    NilTag();
    hide Open, Shut, Ascii, Render;
    ContainerIs("value", "<value>", "</value>");
    AsciiConcat("<value>", "<nil/>");
    AsciiConcat("<value><nil/>", "</value>");
    assert "<value>" + "<nil/>" == "<value><nil/>" && "<value><nil/>" + "</value>" == "<value><nil/></value>";
  }

  lemma AsciiConcat(a: string, b: string)
    ensures Ascii(a) + Ascii(b) == Ascii(a + b)
  {}

  lemma ContainerIs(name: string, open: string, shut: string)
    requires open == "<" + name + ">" && shut == "</" + name + ">"
    ensures Open(name) == Ascii(open) && Shut(name) == Ascii(shut)
  {}

  /** A text that starts on a new line. */
  lemma BrokenText(name: string, text: seq<byte>, open: string, shut: string)
    requires Plain(text) && open == "<value><" + name + ">" && shut == "</" + name + "></value>"
    ensures Render(Tag("value", [Tag(name, [Text(CRLF), Text(text)])])) == Ascii(open) + (CRLF + text) + Ascii(shut)
  {
    EscapePlain(text);
    Typed3(name, CRLF + text, open, shut);
    hide Escape, Open, Shut, Ascii, Render, RenderAll;
    assert [Text(CRLF), Text(text)] == [Text(CRLF)] + [Text(text)];
    RenderBroken(name, [Text(text)]);
    RenderJust(text);
    RenderWrapped("value", Tag(name, [Text(CRLF)] + [Text(text)]));
  }

  lemma BytesSpelled(data: seq<byte>, floats: Floats)
    ensures Render(MarkupOf(Atom(Base64(data)), floats))
         == Ascii("<value><base64>") + ([13, 10] + B64.Encoded(data, true)) + Ascii("</base64></value>")
  {
    EncodedPlain(data);
    hide B64.Encoded, Ascii, Render, Plain;
    BrokenText("base64", B64.Encoded(data, true), "<value><base64>", "</base64></value>");
  }

  // ----- arrays and structs -----

  /** The texts of the items, each on a line of its own. */
  function ItemLines(vs: seq<Value>, floats: Floats): seq<byte> {
    if vs == [] then [] else Render(MarkupOf(vs[0], floats)) + [13, 10] + ItemLines(vs[1..], floats)
  }

  lemma {:induction false} ItemLinesAre(vs: seq<Value>, floats: Floats)
    ensures RenderAll(ItemsMarkup(vs, floats)) == ItemLines(vs, floats)
  {
    if vs == [] {
      NoItems(vs, floats);
    } else {
      RenderItems(vs, floats, 0);
      assert vs[0..] == vs;
      hide Render, RenderAll, MarkupOf, ItemsMarkup;
      ItemLinesAre(vs[1..], floats);
    }
  }

  lemma ArraySpelled(vs: seq<Value>, floats: Floats)
    ensures Render(MarkupOf(ArrayOf(vs), floats))
         == Ascii("<value>") + (Ascii("<array><data>\r\n") + ItemLines(vs, floats) + Ascii("</data></array>"))
            + Ascii("</value>")
  {
    RenderArray(vs, floats);
    ItemLinesAre(vs, floats);
    hide Render, RenderAll, MarkupOf, Ascii, Open, Shut;
    ContainerIs("value", "<value>", "</value>");
  }

  function EntryLines(es: seq<Entry>, floats: Floats): seq<byte> {
    if es == [] then []
    else
      Ascii("<member><name>") + Escape(es[0].key) + Ascii("</name>\r\n") + Render(MarkupOf(es[0].value, floats))
      + Ascii("</member>\r\n") + EntryLines(es[1..], floats)
  }

  lemma {:induction false} EntryLinesAre(es: seq<Entry>, floats: Floats)
    ensures RenderAll(EntriesMarkup(es, floats)) == EntryLines(es, floats)
  {
    if es == [] {
      NoEntries(es, floats);
    } else {
            RenderEntries(es, floats, 0);
      RenderEntry(es[0], floats);
      assert es[0..] == es;
      hide Render, RenderAll, MarkupOf, EntryMarkup, EntriesMarkup, Ascii, Escape;
      EntryLinesAre(es[1..], floats);
    }
  }

  lemma StructSpelled(es: seq<Entry>, floats: Floats)
    ensures Render(MarkupOf(StructOf(es), floats))
         == Ascii("<value>") + (Ascii("<struct>\r\n") + EntryLines(es, floats) + Ascii("</struct>"))
            + Ascii("</value>")
  {
    RenderStruct(es, floats);
    EntryLinesAre(es, floats);
    hide Render, RenderAll, MarkupOf, Ascii, Open, Shut;
    ContainerIs("value", "<value>", "</value>");
    ContainerIs("struct", "<struct>", "</struct>");
  }

  // ----- element trees -----

  /** What the handlers do to the innermost open element and its parent. */
  lemma StepsAre(b: Build, name: string, text: seq<byte>)
    ensures b.root.None? ==> Step(b, StartTag(name)) == Build(b.open + [Elem(name, [], [])], None)
    ensures b.open != [] ==>
              var n, top := |b.open| - 1, b.open[|b.open| - 1];
              && Step(b, Chars(text)) == Build(b.open[..n] + [Elem(top.name, top.cdata + text, top.children)], b.root)
              && Step(b, EndTag(top.name)) ==
                   if n == 0 then Build([], Some(top))
                   else
                     var p := b.open[n - 1];
                     Build(b.open[..n - 1] + [Elem(p.name, p.cdata, p.children + [top])], None)
  {
    if |b.open| > 1 {
      var n := |b.open| - 1;
      assert b.open[..n][..n - 1] == b.open[..n - 1];
    }
  }
}
