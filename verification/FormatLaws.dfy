/** What the format interpreters refuse, and with which fault; what stars and repeated keys mean. */
module FormatLaws {
  import opened Bytes
  import opened Outcomes
  import opened Numerals
  import opened Values
  import opened FormatSpecs
  import opened FormatRoundTrip

  // ----- building -----

  lemma UnknownCode(code: char, rest: string, args: seq<Arg>)
    requires code !in ['i', 'b', 'd', 's', 'w', '8', '6', 'n', 'p', 'A', 'S', 'V', '(', '{']
    ensures GetValue([code] + rest, args) == Refused(InternalError)
  {
    SkipOne(code, rest);
  }

  lemma FormatEnds(args: seq<Arg>, items: seq<Value>)
    ensures GetValue("", args) == Refused(InternalError) && GetArray("", args, items) == Refused(InternalError)
  {}

  /** A value that is handed over must be what its code says. */
  lemma HandedOver(v: Value, rest: string, more: seq<Arg>)
    ensures GetValue(['V'] + rest, [ValueArg(v)] + more) == Built(v, rest, more)
    ensures GetValue(['A'] + rest, [ValueArg(v)] + more)
         == if v.ArrayOf? then Built(v, rest, more) else Refused(InternalError)
    ensures GetValue(['S'] + rest, [ValueArg(v)] + more)
         == if v.StructOf? then Built(v, rest, more) else Refused(InternalError)
  {
    SkipOne('V', rest);
    SkipOne('A', rest);
    SkipOne('S', rest);
    assert ([ValueArg(v)] + more)[1..] == more;
  }

  /** A C string stops at its first NUL, whatever the argument holds behind it. */
  lemma CutAtNul(text: seq<byte>, tail: seq<byte>, rest: string, more: seq<Arg>)
    requires !HasNul(text) && NoHash(rest)
    ensures GetValue(['s'] + rest, [TextArg(text + [0] + tail)] + more) == Built(Atom(String(text)), rest, more)
  {
    SkipOne('s', rest);
    var all := text + [0] + tail;
    assert ([TextArg(all)] + more)[1..] == more;
    CutCString(text, tail);
  }

  lemma {:induction false} CutCString(text: seq<byte>, tail: seq<byte>)
    requires !HasNul(text)
    ensures CString(text + [0] + tail) == text
  {
    if text != [] {
      assert forall k :: 0 <= k < |text| - 1 ==> text[1..][k] == text[k + 1];
      CutCString(text[1..], tail);
      assert (text + [0] + tail)[1..] == text[1..] + [0] + tail;
    }
  }

  /** After a key there must be a colon, and after a member a comma or the end. */
  lemma MemberFaults(format: string, args: seq<Arg>, key: Value, rest: string, more: seq<Arg>)
    requires GetValue(format, args) == Built(key, rest, more)
    ensures rest == "" || rest[0] != ':' ==> GetStructMember(format, args) == RefusedMember(InternalError)
    ensures rest != "" && rest[0] == ':' ==>
              match GetValue(rest[1..], more)
              case Built(v, after, last) => GetStructMember(format, args) == BuiltMember(key, v, after, last)
              case Refused(f) => GetStructMember(format, args) == RefusedMember(f)
              case Undefined => GetStructMember(format, args).UndefinedMember?
  {}

  lemma StructFaults(format: string, args: seq<Arg>, es: seq<Entry>, key: Value, v: Value, rest: string, more: seq<Arg>)
    requires format == "" || format[0] != '}'
    requires GetStructMember(format, args) == BuiltMember(key, v, rest, more)
    ensures rest == "" || rest[0] !in [',', '}'] ==> GetStruct(format, args, es) == Refused(InternalError)
    ensures rest != "" && rest[0] in [',', '}'] && !(key.Atom? && key.scalar.String?) ==>
              GetStruct(format, args, es) == Refused(TypeError)
    ensures rest != "" && rest[0] in [',', '}'] && key.Atom? && key.scalar.String? ==>
              GetStruct(format, args, es) ==
                GetStruct(if rest[0] == ',' then rest[1..] else rest, more, SetEntry(es, key.scalar.text, v))
  {}

  /** Only one value: what is left of the format is refused. */
  lemma JunkRefused(format: string, args: seq<Arg>, v: Value, rest: string, more: seq<Arg>)
    requires GetValue(format, args) == Built(v, rest, more)
    ensures BuildValue(format, args) == if rest == "" then Built(v, rest, more) else Refused(InternalError)
  {}

  // ----- taking apart -----

  /** The code for each kind of value. */
  predicate CodeFor(code: char, v: Value) {
    || code == 'V'
    || (code == 'A' && v.ArrayOf?) || (code == 'S' && v.StructOf?)
    || (v.Atom? && match v.scalar
                   case Int(_) => code == 'i'
                   case Bool(_) => code == 'b'
                   case Double(_) => code == 'd'
                   case DateTime(_) => code == '8'
                   case String(_) => code == 's' || code == 'w'
                   case Base64(_) => code == '6'
                   case Nil => code == 'n'
                   case Pointer(_) => code == 'p')
  }

  /** The wrong code for a value is a type fault, and no code at all an internal one. */
  lemma WrongCode(v: Value, code: char, rest: string, keys: seq<Arg>)
    requires !CodeFor(code, v) && code !in ['(', '{']
    ensures Take(v, [code] + rest, keys)
         == Failed(if code in ['i', 'b', 'd', 's', 'w', '8', '6', 'n', 'p', 'A', 'S'] then TypeError else InternalError)
  {
    SkipOne(code, rest);
    hide TakeWide;
  }

  lemma WrongContainer(v: Value, rest: string, keys: seq<Arg>)
    ensures !v.ArrayOf? ==> Take(v, ['('] + rest, keys) == Failed(TypeError)
    ensures !v.StructOf? ==> Take(v, ['{'] + rest, keys) == Failed(TypeError)
  {
    SkipOne('(', rest);
    SkipOne('{', rest);
  }

  /** An array must have as many items as the format, unless a star leaves the rest of them alone. */
  lemma ItemCount(items: seq<Value>, rest: string, keys: seq<Arg>, outs: seq<Arg>)
    ensures TakeItems(items, [')'] + rest, keys, outs)
         == if items == [] then Taken(outs, rest, keys) else Failed(IndexError)
    ensures TakeItems(items, ['*'] + ([')'] + rest), keys, outs) == Taken(outs, rest, keys)
    ensures rest != "" && rest[0] !in [')', '*'] ==> TakeItems([], rest, keys, outs) == Failed(IndexError)
  {
    SkipOne(')', rest);
    SkipOne('*', [')'] + rest);
    hide Take;
  }

  /** Some members of a struct may be left alone, and the star must say so. */
  lemma MembersLeft(es: seq<Entry>, rest: string, keys: seq<Arg>, outs: seq<Arg>)
    ensures TakeMembers(es, ['}'] + rest, keys, outs) == Failed(InternalError)
    ensures TakeMembers(es, "", keys, outs) == Failed(InternalError)
    ensures TakeMembers(es, ['*'] + (['}'] + rest), keys, outs) == Taken(outs, rest, keys)
    ensures rest != "" && rest[0] != '}' ==> TakeMembers(es, ['*'] + rest, keys, outs) == Failed(InternalError)
  {
    SkipOne('}', rest);
    SkipOne('*', rest);
    SkipOne('*', ['}'] + rest);
    hide TakeMember;
    assert (['*'] + (['}'] + rest))[2..] == rest;
  }

  /** A key that the struct does not have is an index fault. */
  lemma {:induction false} MissingKey(es: seq<Entry>, key: seq<byte>, rest: string, keys: seq<Arg>)
    requires forall i :: 0 <= i < |es| ==> es[i].key != key
    ensures TakeMember(es, ['s'] + (['#'] + ([':'] + rest)), [BytesArg(key)] + keys) == Failed(IndexError)
  {
    SkipOne('s', ['#'] + ([':'] + rest));
    SkipOne('#', [':'] + rest);
    SkipOne(':', rest);
    assert ([BytesArg(key)] + keys)[1..] == keys;
    NotFound(es, key);
    hide Take;
  }

  lemma {:induction false} NotFound(es: seq<Entry>, key: seq<byte>)
    ensures Find(es, key) == None <==> forall i :: 0 <= i < |es| ==> es[i].key != key
  {
    if es != [] {
      NotFound(es[1..], key);
      assert es == [es[0]] + es[1..];
    }
  }
}
