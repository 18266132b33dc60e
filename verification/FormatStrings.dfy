/** The interpreters of format strings as they run, with cursors that every call moves on. */
module FormatStrings {
  import opened Bytes
  import opened Outcomes
  import opened Numerals
  import opened Values
  import opened FormatSpecs
  import Utf8 = Utf8Codec

  class Reader {
    const format: string
    const args: seq<Arg>
    var pos: nat
    var next: nat
    var outs: seq<Arg>

    ghost predicate Valid()
      reads this
    {
      pos <= |format| && next <= |args|
    }

    ghost function Rest(): string
      reads this
      requires Valid()
    {
      format[pos..]
    }

    ghost function Args(): seq<Arg>
      reads this
      requires Valid()
    {
      args[next..]
    }

    constructor (format: string, args: seq<Arg>)
      ensures Valid() && Rest() == format && Args() == args && outs == []
      ensures this.format == format && this.args == args
    {
      this.format, this.args, pos, next, outs := format, args, 0, 0, [];
    }

    /** A result and the cursors are what the functions on the rest of the format say. */
    ghost predicate Did(r: Result<Value, Fault>, spec: Built)
      reads this
    {
      Valid() && !spec.Undefined? &&
      match r
      case Ok(v) => spec == Built(v, Rest(), Args())
      case Err(f) => spec == Refused(f)
    }

    method GetScalar(code: char) returns (r: Result<Value, Fault>)
      requires Valid() && !FormatSpecs.GetScalar(code, Rest(), Args()).Undefined?
      modifies this`pos, this`next
      ensures Did(r, FormatSpecs.GetScalar(code, old(Rest()), old(Args())))
      ensures pos >= old(pos)
    {
      if code == 'n' {
        return Ok(Atom(Nil));
      }
      if code !in "ibdsw86pASV" {
        return Err(InternalError);
      }
      var arg := args[next];
      next := next + 1;
      match code {
        case 'i' => r := Ok(Atom(Int(arg.i)));
        case 'b' => r := Ok(Atom(Bool(arg.b)));
        case 'd' => r := Ok(Atom(Double(arg.d)));
        case 's' =>
          if pos < |format| && format[pos] == '#' {
            pos := pos + 1;
            r := Ok(Atom(String(arg.data)));
          } else {
            r := Ok(Atom(String(CString(arg.text))));
          }
        case 'w' =>
          if pos < |format| && format[pos] == '#' {
            pos := pos + 1;
            r := MakeWideString(arg.chars);
          } else {
            r := MakeWideString(WideCString(arg.chars));
          }
        case '8' => r := Ok(Atom(DateTime(CString(arg.text))));
        case '6' => r := Ok(Atom(Base64(arg.data)));
        case 'p' => r := Ok(Atom(Pointer(arg.p)));
        case 'A' => r := if arg.v.ArrayOf? then Ok(arg.v) else Err(InternalError);
        case 'S' => r := if arg.v.StructOf? then Ok(arg.v) else Err(InternalError);
        case _ => r := Ok(arg.v);
      }
    }

    method GetValue() returns (r: Result<Value, Fault>)
      requires Valid() && !FormatSpecs.GetValue(Rest(), Args()).Undefined?
      modifies this`pos, this`next
      ensures Did(r, FormatSpecs.GetValue(old(Rest()), old(Args())))
      decreases |format| - pos, 0
    {
      if pos == |format| {
        return Err(InternalError);
      }
      var code := format[pos];
      pos := pos + 1;
      assert old(Rest())[1..] == Rest();
      if code == '(' {
        r := GetArray();
      } else if code == '{' {
        r := GetStruct();
      } else {
        r := GetScalar(code);
      }
    }

    method GetArray() returns (r: Result<Value, Fault>)
      requires Valid() && !FormatSpecs.GetArray(Rest(), Args(), []).Undefined?
      modifies this`pos, this`next
      ensures Did(r, FormatSpecs.GetArray(old(Rest()), old(Args()), []))
      decreases |format| - pos, 1
    {
      var items: seq<Value> := [];
      while pos < |format| && format[pos] != ')'
        invariant Valid() && pos >= old(pos)
        invariant FormatSpecs.GetArray(old(Rest()), old(Args()), []) == FormatSpecs.GetArray(Rest(), Args(), items)
        decreases |format| - pos
      {
        var item := GetValue();
        if item.Err? {
          return item;
        }
        items := items + [item.value];
      }
      if pos == |format| {
        return Err(InternalError);
      }
      pos := pos + 1;
      r := Ok(ArrayOf(items));
    }

    method GetStructMember() returns (r: Result<(Value, Value), Fault>)
      requires Valid() && !FormatSpecs.GetStructMember(Rest(), Args()).UndefinedMember?
      modifies this`pos, this`next
      ensures Valid()
      ensures var spec := FormatSpecs.GetStructMember(old(Rest()), old(Args()));
              match r
              case Ok(m) => spec == BuiltMember(m.0, m.1, Rest(), Args())
              case Err(f) => spec == RefusedMember(f)
      decreases |format| - pos, 1
    {
      var key := GetValue();
      if key.Err? {
        return Err(key.error);
      }
      if pos == |format| || format[pos] != ':' {
        return Err(InternalError);
      }
      ghost var afterKey := Rest();
      pos := pos + 1;
      assert afterKey[1..] == Rest();
      var value := GetValue();
      if value.Err? {
        return Err(value.error);
      }
      r := Ok((key.value, value.value));
    }

    method GetStruct() returns (r: Result<Value, Fault>)
      requires Valid() && !FormatSpecs.GetStruct(Rest(), Args(), []).Undefined?
      modifies this`pos, this`next
      ensures Did(r, FormatSpecs.GetStruct(old(Rest()), old(Args()), []))
      decreases |format| - pos, 2
    {
      var entries: seq<Entry> := [];
      while pos == |format| || format[pos] != '}'
        invariant Valid() && pos >= old(pos)
        invariant FormatSpecs.GetStruct(old(Rest()), old(Args()), []) == FormatSpecs.GetStruct(Rest(), Args(), entries)
        decreases |format| - pos
      {
        var member := GetStructMember();
        if member.Err? {
          return Err(member.error);
        }
        var (key, value) := member.value;
        if pos == |format| || (format[pos] != ',' && format[pos] != '}') {
          return Err(InternalError);
        }
        ghost var afterValue := Rest();
        if format[pos] == ',' {
          pos := pos + 1;
        }
        assert AfterComma(afterValue) == Rest();
        if !IsText(key) {
          return Err(TypeError);
        }
        entries := SetEntry(entries, key.scalar.text, value);
      }
      pos := pos + 1;
      r := Ok(StructOf(entries));
    }

    // ----- taking values apart -----

    /** What a call has written, and the cursors, are what the functions say. */
    ghost predicate Wrote(before: seq<Arg>, fault: Option<Fault>, spec: Taken)
      reads this
    {
      Valid() && !spec.Unclear? &&
      match fault
      case None => |before| <= |outs| && outs[..|before|] == before && spec == Taken(outs[|before|..], Rest(), Args())
      case Some(f) => spec == Failed(f)
    }

    method TakeScalar(v: Value, code: char) returns (fault: Option<Fault>)
      requires Valid() && !FormatSpecs.TakeScalar(v, code, Rest(), Args()).Unclear?
      modifies this`pos, this`outs
      ensures Wrote(old(outs), fault, FormatSpecs.TakeScalar(v, code, old(Rest()), old(Args())))
      ensures pos >= old(pos) && next == old(next)
    {
      if code == 'V' || (code == 'A' && v.ArrayOf?) || (code == 'S' && v.StructOf?) {
        outs := outs + [ValueArg(v)];
        return None;
      }
      if code == 'A' || code == 'S' {
        return Some(TypeError);
      }
      if code !in "ibd8sw6np" {
        return Some(InternalError);
      }
      if !v.Atom? {
        return Some(TypeError);
      }
      var s := v.scalar;
      if code == 'w' && s.String? {
        var sized := pos < |format| && format[pos] == '#';
        if sized {
          pos := pos + 1;
        }
        fault := TakeWide(s.text, sized);
        return;
      }
      if code == 's' && s.String? && pos < |format| && format[pos] == '#' {
        pos := pos + 1;
        outs := outs + [BytesArg(s.text)];
        return None;
      }
      if code == 's' && s.String? {
        var nul := FindNul(s.text);
        if nul {
          return Some(TypeError);
        }
        outs := outs + [TextArg(s.text)];
        return None;
      }
      if code == 'i' && s.Int? {
        outs := outs + [IntArg(s.i)];
      } else if code == 'b' && s.Bool? {
        outs := outs + [BoolArg(s.b)];
      } else if code == 'd' && s.Double? {
        outs := outs + [RealArg(s.d)];
      } else if code == '8' && s.DateTime? {
        outs := outs + [TextArg(s.stamp)];
      } else if code == '6' && s.Base64? {
        outs := outs + [BytesArg(s.data)];
      } else if code == 'p' && s.Pointer? {
        outs := outs + [PointerArg(s.p)];
      } else if !(code == 'n' && s.Nil?) {
        return Some(TypeError);
      }
      fault := None;
    }

    /** The text is converted together with the NUL behind it, which is then left out. */
    method TakeWide(text: seq<byte>, sized: bool) returns (fault: Option<Fault>)
      requires Valid() && !FormatSpecs.TakeWide(text, sized, Rest(), Args()).Unclear?
      modifies this`outs
      ensures Wrote(old(outs), fault, FormatSpecs.TakeWide(text, sized, Rest(), Args()))
    {
      hide Utf8.Decode, Utf8.Encode;
      Utf8.DecodeEnded(text);
      var decoded := Utf8.Utf8ToWcs(text + [0]);
      if decoded.Err? {
        return Some(InvalidUtf8);
      }
      var chars := decoded.value[..|decoded.value| - 1];
      if sized {
        outs := outs + [SizedWideArg(chars)];
        return None;
      }
      var nul := FindWideNul(chars);
      if nul {
        return Some(TypeError);
      }
      outs := outs + [WideArg(chars)];
      fault := None;
    }

    method Take(v: Value) returns (fault: Option<Fault>)
      requires Valid() && !FormatSpecs.Take(v, Rest(), Args()).Unclear?
      modifies this`pos, this`next, this`outs
      ensures Wrote(old(outs), fault, FormatSpecs.Take(v, old(Rest()), old(Args())))
      decreases |format| - pos, 0
    {
      if pos == |format| {
        return Some(InternalError);
      }
      var code := format[pos];
      pos := pos + 1;
      assert old(Rest())[1..] == Rest();
      if code == '(' {
        if !v.ArrayOf? {
          return Some(TypeError);
        }
        fault := TakeItems(v.items);
      } else if code == '{' {
        if !v.StructOf? {
          return Some(TypeError);
        }
        fault := TakeMembers(v.entries);
      } else {
        fault := TakeScalar(v, code);
      }
    }

    method TakeItems(items: seq<Value>) returns (fault: Option<Fault>)
      requires Valid() && !FormatSpecs.TakeItems(items, Rest(), Args(), []).Unclear?
      modifies this`pos, this`next, this`outs
      ensures Wrote(old(outs), fault, FormatSpecs.TakeItems(items, old(Rest()), old(Args()), []))
      decreases |format| - pos, 1
    {
      var i := 0;
      assert items[0..] == items;
      assert outs[|old(outs)|..] == [];
      while i < |items| && format[pos] != '*'
        invariant Valid() && pos >= old(pos) && i <= |items|
        invariant |old(outs)| <= |outs| && outs[..|old(outs)|] == old(outs)
        invariant FormatSpecs.TakeItems(items, old(Rest()), old(Args()), [])
               == FormatSpecs.TakeItems(items[i..], Rest(), Args(), outs[|old(outs)|..])
        decreases |format| - pos
      {
        if format[pos] == ')' {
          return Some(IndexError);
        }
        ghost var before := outs;
        fault := Take(items[i]);
        if fault.Some? {
          return;
        }
        WrittenMore(old(outs), before, outs);
        assert items[i..][1..] == items[i + 1..];
        i := i + 1;
      }
      if pos < |format| && format[pos] == '*' {
        assert Rest()[1..] == format[pos + 1..];
        pos := pos + 1;
      }
      if pos == |format| || format[pos] != ')' {
        return Some(IndexError);
      }
      pos := pos + 1;
      fault := None;
    }

    method TakeMember(entries: seq<Entry>) returns (fault: Option<Fault>)
      requires Valid() && !FormatSpecs.TakeMember(entries, Rest(), Args()).Unclear?
      modifies this`pos, this`next, this`outs
      ensures Wrote(old(outs), fault, FormatSpecs.TakeMember(entries, old(Rest()), old(Args())))
      decreases |format| - pos, 1
    {
      var key := GetValue();
      if key.Err? {
        return Some(key.error);
      }
      ghost var afterKey := Rest();
      pos := pos + 1;
      assert afterKey[1..] == Rest();
      if !IsText(key.value) {
        return Some(TypeError);
      }
      var found := FindEntry(entries, key.value.scalar.text);
      if found.None? {
        return Some(IndexError);
      }
      fault := Take(found.value);
      if fault.Some? {
        return;
      }
      ghost var afterValue := Rest();
      if format[pos] == ',' {
        pos := pos + 1;
      }
      assert AfterComma(afterValue) == Rest();
    }

    method TakeMembers(entries: seq<Entry>) returns (fault: Option<Fault>)
      requires Valid() && !FormatSpecs.TakeMembers(entries, Rest(), Args(), []).Unclear?
      modifies this`pos, this`next, this`outs
      ensures Wrote(old(outs), fault, FormatSpecs.TakeMembers(entries, old(Rest()), old(Args()), []))
      decreases |format| - pos, 2
    {
      assert outs[|old(outs)|..] == [];
      while pos < |format| && format[pos] != '*' && format[pos] != '}'
        invariant Valid() && pos >= old(pos)
        invariant |old(outs)| <= |outs| && outs[..|old(outs)|] == old(outs)
        invariant FormatSpecs.TakeMembers(entries, old(Rest()), old(Args()), [])
               == FormatSpecs.TakeMembers(entries, Rest(), Args(), outs[|old(outs)|..])
        decreases |format| - pos
      {
        ghost var before := outs;
        fault := TakeMember(entries);
        if fault.Some? {
          return;
        }
        WrittenMore(old(outs), before, outs);
      }
      if pos == |format| || format[pos] != '*' {
        return Some(InternalError);
      }
      ghost var atStar := Rest();
      pos := pos + 1;
      assert atStar[1..] == Rest();
      if pos < |format| && format[pos] != '}' {
        return Some(InternalError);
      }
      assert atStar[2..] == format[pos + 1..];
      pos := pos + 1;
      fault := None;
    }
  }

  lemma WrittenMore(start: seq<Arg>, before: seq<Arg>, outs: seq<Arg>)
    requires |start| <= |before| <= |outs| && before[..|start|] == start && outs[..|before|] == before
    ensures outs[..|start|] == start && outs[|start|..] == before[|start|..] + outs[|before|..]
  {
    assert outs[..|before|][..|start|] == outs[..|start|];
  }

  /** One value, and the part of the format that follows it. */
  method BuildValueVa(format: string, args: seq<Arg>) returns (r: Result<Value, Fault>, tail: string)
    requires !GetValue(format, args).Undefined?
    ensures var spec := GetValue(format, args);
            if r.Ok? then spec.Built? && spec.value == r.value && spec.format == tail
            else spec.Refused? && spec.fault == r.error
  {
    tail := "";
    if |format| == 0 {
      return Err(InternalError), "";
    }
    var reader := new Reader(format, args);
    r := reader.GetValue();
    if r.Ok? {
      tail := format[reader.pos..];
    }
  }

  /** The whole format must be used up by one value. */
  method BuildValue(format: string, args: seq<Arg>) returns (r: Result<Value, Fault>)
    requires !GetValue(format, args).Undefined?
    ensures var spec := FormatSpecs.BuildValue(format, args);
            if r.Ok? then spec.Built? && spec.value == r.value else spec.Refused? && spec.fault == r.error
  {
    var tail;
    r, tail := BuildValueVa(format, args);
    if r.Ok? && tail != "" {
      r := Err(InternalError);
    }
  }

  /** A wide string is converted together with the NUL behind it. */
  method MakeWideString(chars: seq<nat>) returns (r: Result<Value, Fault>)
    ensures r == match Utf8.Encode(chars) case Ok(text) => Ok(Atom(String(text))) case Err(_) => Err(InternalError)
  {
    Utf8.EncodeEnded(chars);
    var utf8 := Utf8.WcsToUtf8(chars + [0]);
    match utf8
    case Err(_) => r := Err(InternalError);
    case Ok(block) => r := Ok(Atom(String(block[..|block| - 1])));
  }

  method FindWideNul(chars: seq<nat>) returns (found: bool)
    ensures found <==> 0 in chars
  {
    for i := 0 to |chars|
      invariant 0 !in chars[..i]
    {
      if chars[i] == 0 {
        return true;
      }
    }
    found := false;
  }

  method FindNul(text: seq<byte>) returns (found: bool)
    ensures found <==> HasNul(text)
  {
    for i := 0 to |text|
      invariant forall k :: 0 <= k < i ==> text[k] != 0
    {
      if text[i] == 0 {
        return true;
      }
    }
    found := false;
  }

  method FindEntry(entries: seq<Entry>, key: seq<byte>) returns (r: Option<Value>)
    ensures r == Find(entries, key)
  {
    assert entries[0..] == entries;
    for i := 0 to |entries|
      invariant Find(entries, key) == Find(entries[i..], key)
    {
      assert entries[i..][1..] == entries[i + 1..];
      if entries[i].key == key {
        return Some(entries[i].value);
      }
    }
    r := None;
  }
}
