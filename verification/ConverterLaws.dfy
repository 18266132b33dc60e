/**
  What the converter accepts, element by element, whoever wrote the document: every type name, every
  shape of an array or a struct, and the fault for everything else.
*/
module ConverterLaws {
  import opened Bytes
  import opened Outcomes
  import opened Values
  import opened XmlTree
  import opened Serializer
  import opened Converter
  import opened HeapConverter
  import B64 = Base64
  import Utf8 = Utf8Codec
  import Numerals

  // ----- numerals -----

  predicate AreFigures(s: seq<byte>) {
    forall k :: 0 <= k < |s| ==> '0' as int <= s[k] <= '9' as int
  }

  function Power10(n: nat): nat {
    if n == 0 then 1 else 10 * Power10(n - 1)
  }

  /** Each figure counts ten times the next one. */
  function Placed(s: seq<byte>): int {
    if s == [] then 0 else (s[0] - '0' as int) * Power10(|s| - 1) + Placed(s[1..])
  }

  /** Nothing at all, or figures with at most one sign before them. */
  predicate IsNumeral(s: seq<byte>, i: int) {
    || (s == [] && i == 0)
    || (s != [] && AreFigures(s) && i == Placed(s))
    || (|s| > 1 && s[0] == '+' as int && AreFigures(s[1..]) && i == Placed(s[1..]))
    || (|s| > 1 && s[0] == '-' as int && AreFigures(s[1..]) && i == -Placed(s[1..]))
  }

  lemma {:induction false} PlacedMore(s: seq<byte>, c: byte)
    ensures Placed(s + [c]) == Placed(s) * 10 + (c as int - '0' as int)
  {
    if s == [] {
      assert [c][1..] == [];
    } else {
      PlacedMore(s[1..], c);
      assert (s + [c])[1..] == s[1..] + [c];
      var d, p := s[0] as int - '0' as int, Power10(|s| - 1);
      assert d * (10 * p) == d * p * 10;
    }
  }

  lemma {:induction false} NumberIs(s: seq<byte>)
    ensures Numerals.Number(s) == Placed(s)
  {
    if s != [] {
      var n := |s| - 1;
      NumberIs(s[..n]);
      PlacedMore(s[..n], s[n]);
      assert s == s[..n] + [s[n]];
    }
  }

  lemma AtoiIs(s: seq<byte>, min: int, max: int, i: int)
    requires min <= 0 <= max
    ensures Numerals.Atoi(s, min, max) == Ok(i) <==> min <= i <= max && IsNumeral(s, i)
    ensures Numerals.Atoi(s, min, max).Err? ==> Numerals.Atoi(s, min, max) == Err(ParseError)
  {
    Numerals.AtoiAccepts(s, min, max);
    NumberIs(Numerals.Body(s));
    NumberIs(s);
    assert s != [] ==> Numerals.Body(s) == s || Numerals.Body(s) == s[1..];
  }

  /** The part before the first NUL. */
  predicate IsCString(s: seq<byte>, t: seq<byte>) {
    t <= s && 0 !in t && (|t| == |s| || s[|t|] == 0)
  }

  lemma {:induction false} CStringIs(s: seq<byte>)
    ensures IsCString(s, Numerals.CString(s))
  {
    if s != [] && s[0] != 0 {
      CStringIs(s[1..]);
    }
  }

  // ----- values without others inside -----

  /** A value element that holds one typed element with text; text around that element does not count. */
  function Typed(name: string, text: seq<byte>, around: seq<byte>): Elem {
    Elem("value", around, [Elem(name, text, [])])
  }

  lemma IntegerIs(name: string, c: seq<byte>, around: seq<byte>, n: nat, floats: Floats, v: Value)
    requires name == "i4" || name == "int"
    ensures Convert(Typed(name, c, around), n, floats) == Ok(v) <==>
              n >= 1 && v.Atom? && v.scalar.Int? && -2147483648 <= v.scalar.i <= 2147483647
              && IsNumeral(Numerals.CString(c), v.scalar.i)
    ensures Convert(Typed(name, c, around), n, floats).Err? ==>
              Convert(Typed(name, c, around), n, floats) == Err(ParseError)
  {
    var t := Numerals.CString(c);
    var r := Numerals.Atoi(t, -2147483648, 2147483647);
    AtoiIs(t, -2147483648, 2147483647, if r.Ok? then r.value else 0);
    AtoiIs(t, -2147483648, 2147483647, if v.Atom? && v.scalar.Int? then v.scalar.i else 0);
    hide IsNumeral, Numerals.Atoi, Numerals.CString;
  }

  lemma BooleanIs(c: seq<byte>, around: seq<byte>, n: nat, floats: Floats, v: Value)
    ensures Convert(Typed("boolean", c, around), n, floats) == Ok(v) <==>
              n >= 1 && v.Atom? && v.scalar.Bool? && IsNumeral(Numerals.CString(c), if v.scalar.b then 1 else 0)
    ensures Convert(Typed("boolean", c, around), n, floats).Err? ==>
              Convert(Typed("boolean", c, around), n, floats) == Err(ParseError)
  {
    var t := Numerals.CString(c);
    AtoiIs(t, 0, 1, 0);
    AtoiIs(t, 0, 1, 1);
    hide IsNumeral, Numerals.CString;
  }

  lemma StringIs(c: seq<byte>, around: seq<byte>, n: nat, floats: Floats)
    ensures Convert(Typed("string", c, around), n, floats) ==
              if n < 1 then Err(ParseError) else if Utf8.Decode(c).Ok? then Ok(Atom(String(c))) else Err(InvalidUtf8)
  {}

  /** Without a type element the text itself is the string. */
  lemma UntypedIs(c: seq<byte>, n: nat, floats: Floats)
    ensures Convert(Elem("value", c, []), n, floats) ==
              if n < 1 then Err(ParseError) else if Utf8.Decode(c).Ok? then Ok(Atom(String(c))) else Err(InvalidUtf8)
  {}

  lemma Base64Is(c: seq<byte>, around: seq<byte>, n: nat, floats: Floats)
    ensures Convert(Typed("base64", c, around), n, floats) ==
              if n >= 1 && B64.Decoded(c).Ok? then Ok(Atom(Base64(B64.Decoded(c).value))) else Err(ParseError)
  {}

  lemma OthersAre(c: seq<byte>, around: seq<byte>, n: nat, floats: Floats)
    requires n >= 1
    ensures Convert(Typed("nil", c, around), n, floats) == Ok(Atom(Nil))
    ensures Convert(Typed("dateTime.iso8601", c, around), n, floats) == Ok(Atom(DateTime(Numerals.CString(c))))
    ensures Convert(Typed("double", c, around), n, floats) ==
              match floats.read(Numerals.CString(c)) case Ok(d) => Ok(Atom(Double(d))) case Err(f) => Err(f)
  {}

  predicate IsTypeName(name: string) {
    name in ["i4", "int", "string", "boolean", "double", "dateTime.iso8601", "nil", "base64"]
  }

  /** Everything that is no value element of a known shape, or too deep, is a parse error. */
  lemma RefusedShapes(e: Elem, n: nat, floats: Floats)
    requires n == 0 || e.name != "value" || |e.children| > 1
             || (|e.children| == 1 && var child := e.children[0];
                 || (!IsTypeName(child.name) && child.name != "array" && child.name != "struct")
                 || (IsTypeName(child.name) && child.children != [])
                 || (child.name == "array" && (|child.children| != 1 || child.children[0].name != "data")))
    ensures Convert(e, n, floats) == Err(ParseError)
  {}

  // ----- arrays -----

  lemma {:induction false} ItemsAre(es: seq<Elem>, n: nat, floats: Floats, vs: seq<Value>)
    requires n >= 1
    ensures ConvertItems(es, n, floats) == Ok(vs) <==>
              |vs| == |es| && forall i :: 0 <= i < |es| ==> Convert(es[i], n - 1, floats) == Ok(vs[i])
  {
    if es != [] {
      var r := ConvertItems(es[1..], n, floats);
      if vs != [] {
        ItemsAre(es[1..], n, floats, vs[1..]);
      }
      if r.Ok? {
        ItemsAre(es[1..], n, floats, r.value);
      }
      hide Convert;
      assert vs != [] ==> vs == [vs[0]] + vs[1..];
      assert forall i :: 0 < i < |es| ==> es[1..][i - 1] == es[i];
      assert forall i :: 0 < i < |vs| ==> vs[1..][i - 1] == vs[i];
    }
  }

  /** The fault is that of the first item that has one. */
  lemma {:induction false} ItemsFault(es: seq<Elem>, n: nat, floats: Floats, i: nat, f: Fault)
    requires n >= 1 && i < |es| && Convert(es[i], n - 1, floats) == Err(f)
    requires forall j :: 0 <= j < i ==> Convert(es[j], n - 1, floats).Ok?
    ensures ConvertItems(es, n, floats) == Err(f)
  {
    hide Convert;
    if i > 0 {
      assert forall j :: 0 <= j < i - 1 ==> es[1..][j] == es[j + 1];
      ItemsFault(es[1..], n, floats, i - 1, f);
    }
  }

  function ArrayElem(items: seq<Elem>, t1: seq<byte>, t2: seq<byte>, t3: seq<byte>): Elem {
    Elem("value", t1, [Elem("array", t2, [Elem("data", t3, items)])])
  }

  lemma ArrayIs(items: seq<Elem>, t1: seq<byte>, t2: seq<byte>, t3: seq<byte>, n: nat, floats: Floats, v: Value)
    ensures Convert(ArrayElem(items, t1, t2, t3), n, floats) == Ok(v) <==>
              && n >= 1 && v.ArrayOf? && |v.items| == |items|
              && forall i :: 0 <= i < |items| ==> Convert(items[i], n - 1, floats) == Ok(v.items[i])
  {
    if n >= 1 {
      var r := ConvertItems(items, n, floats);
      ItemsAre(items, n, floats, if v.ArrayOf? then v.items else []);
      if r.Ok? {
        ItemsAre(items, n, floats, r.value);
      }
      assert Convert(ArrayElem(items, t1, t2, t3), n, floats) == AsArray(r);
    }
  }

  // ----- structs -----

  /** A member with a key and a value, in either order; of several such children the first counts. */
  ghost predicate IsMember(m: Elem, n: nat, floats: Floats, key: seq<byte>, v: Value) {
    && m.name == "member" && |m.children| == 2
    && (exists i :: 0 <= i < 2 && m.children[i].name == "name" && m.children[i].children == []
          && m.children[i].cdata == key && (i == 1 ==> m.children[0].name != "name"))
    && Utf8.Decode(key).Ok?
    && exists i :: 0 <= i < 2 && m.children[i].name == "value"
         && (i == 1 ==> m.children[0].name != "value") && Convert(m.children[i], n, floats) == Ok(v)
  }

  lemma ChildOfTwo(es: seq<Elem>, name: string)
    requires |es| == 2
    ensures ChildNamed(es, name) ==
              if es[0].name == name then Some(es[0]) else if es[1].name == name then Some(es[1]) else None
  {
    assert es[1..][1..] == [] && ChildNamed([], name) == None;
  }

  lemma MemberIs(m: Elem, n: nat, floats: Floats, key: seq<byte>, v: Value)
    ensures IsMember(m, n, floats, key, v) <==>
              && MemberParts(m).Ok? && MemberParts(m).value.0 == key
              && Convert(MemberParts(m).value.1, n, floats) == Ok(v)
  {
    if m.name == "member" && |m.children| == 2 {
      ChildOfTwo(m.children, "name");
      ChildOfTwo(m.children, "value");
      hide Convert, ChildNamed, Utf8.Decode;
      assert m.children[0].name != "name" || m.children[0].name != "value";
    }
  }

  /** Setting a key: an entry that has it is changed where it is, otherwise one is added at the end. */
  function Put(es: seq<Entry>, key: seq<byte>, v: Value): seq<Entry> {
    if exists i :: 0 <= i < |es| && es[i].key == key
    then seq(|es|, i requires 0 <= i < |es| => if es[i].key == key then Entry(key, v) else es[i])
    else es + [Entry(key, v)]
  }

  lemma SetEntryIs(es: seq<Entry>, key: seq<byte>, v: Value)
    requires KeysDistinct(es)
    ensures SetEntry(es, key, v) == Put(es, key, v) && KeysDistinct(SetEntry(es, key, v))
  {
    if i :| 0 <= i < |es| && es[i].key == key {
      SetEntryAt(es, i, key, v);
      assert forall j :: 0 <= j < |es| && j != i ==> es[j].key != key;
      assert Put(es, key, v) == es[i := Entry(key, v)];
    } else {
      SetEntryNew(es, key, v);
    }
  }

  /** The entries after one member after the other has been put in. */
  function PutAll(es: seq<Entry>, keys: seq<seq<byte>>, vs: seq<Value>): seq<Entry>
    requires |keys| == |vs|
    decreases |keys|
  {
    if keys == [] then es else PutAll(Put(es, keys[0], vs[0]), keys[1..], vs[1..])
  }

  ghost predicate AreMembers(ms: seq<Elem>, n: nat, floats: Floats, keys: seq<seq<byte>>, vs: seq<Value>) {
    |keys| == |vs| == |ms| && forall i :: 0 <= i < |ms| ==> IsMember(ms[i], n, floats, keys[i], vs[i])
  }

  lemma {:induction false} MembersConvert(ms: seq<Elem>, n: nat, floats: Floats, es: seq<Entry>,
                                          keys: seq<seq<byte>>, vs: seq<Value>)
    requires n >= 1 && KeysDistinct(es) && AreMembers(ms, n - 1, floats, keys, vs)
    ensures ConvertMembers(ms, n, es, floats) == Ok(PutAll(es, keys, vs))
    decreases |ms|
  {
    if ms != [] {
      MemberIs(ms[0], n - 1, floats, keys[0], vs[0]);
      SetEntryIs(es, keys[0], vs[0]);
      hide Convert, IsMember, MemberParts;
      MembersConvert(ms[1..], n, floats, SetEntry(es, keys[0], vs[0]), keys[1..], vs[1..]);
    }
  }

  lemma {:induction false} ConvertedMembers(ms: seq<Elem>, n: nat, floats: Floats, es: seq<Entry>)
    returns (keys: seq<seq<byte>>, vs: seq<Value>)
    requires n >= 1 && ConvertMembers(ms, n, es, floats).Ok?
    ensures AreMembers(ms, n - 1, floats, keys, vs)
    decreases |ms|
  {
    keys, vs := [], [];
    if ms != [] {
      var key, e := MemberParts(ms[0]).value.0, MemberParts(ms[0]).value.1;
      var v := Convert(e, n - 1, floats).value;
      MemberIs(ms[0], n - 1, floats, key, v);
      hide Convert, IsMember, MemberParts;
      keys, vs := ConvertedMembers(ms[1..], n, floats, SetEntry(es, key, v));
      keys, vs := [key] + keys, [v] + vs;
    }
  }

  function StructElem(members: seq<Elem>, t1: seq<byte>, t2: seq<byte>): Elem {
    Elem("value", t1, [Elem("struct", t2, members)])
  }

  lemma StructIs(ms: seq<Elem>, t1: seq<byte>, t2: seq<byte>, n: nat, floats: Floats, v: Value)
    ensures Convert(StructElem(ms, t1, t2), n, floats) == Ok(v) <==>
              && n >= 1 && v.StructOf?
              && exists keys, vs :: AreMembers(ms, n - 1, floats, keys, vs) && v.entries == PutAll([], keys, vs)
  {
    if n >= 1 {
      var r := ConvertMembers(ms, n, [], floats);
      assert Convert(StructElem(ms, t1, t2), n, floats) == AsStruct(r);
      hide Convert, IsMember, MemberParts;
      if r.Ok? {
        var keys, vs := ConvertedMembers(ms, n, floats, []);
        MembersConvert(ms, n, floats, [], keys, vs);
      }
      if v.StructOf?
         && exists keys, vs :: AreMembers(ms, n - 1, floats, keys, vs) && v.entries == PutAll([], keys, vs) {
        var keys, vs :| AreMembers(ms, n - 1, floats, keys, vs) && v.entries == PutAll([], keys, vs);
        MembersConvert(ms, n, floats, [], keys, vs);
      }
    }
  }

  // ----- parameter lists -----

  lemma {:induction false} ParamsAre(ps: seq<Elem>, n: nat, floats: Floats, vs: seq<Value>)
    ensures ParamSpec(ps, n, floats) == Ok(vs) <==>
              && |vs| == |ps|
              && forall i :: 0 <= i < |ps| ==>
                   ps[i].name == "param" && |ps[i].children| == 1 && Convert(ps[i].children[0], n, floats) == Ok(vs[i])
  {
    if ps != [] {
      var r := ParamSpec(ps[1..], n, floats);
      if vs != [] {
        ParamsAre(ps[1..], n, floats, vs[1..]);
      }
      if r.Ok? {
        ParamsAre(ps[1..], n, floats, r.value);
      }
      hide Convert;
      assert vs != [] ==> vs == [vs[0]] + vs[1..];
      assert forall i :: 0 < i < |ps| ==> ps[1..][i - 1] == ps[i];
      assert forall i :: 0 < i < |vs| ==> vs[1..][i - 1] == vs[i];
    }
  }
}
