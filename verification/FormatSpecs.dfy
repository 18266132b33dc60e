/**
  Building values from a format string and arguments, and taking values apart the same way.

  The cursor into the format is the part of the string that is still to be read; its end stands for the
  terminating NUL.  The arguments are what is left of the argument list.
*/
module FormatSpecs {
  import opened Bytes
  import opened Outcomes
  import opened Numerals
  import opened Values
  import Utf8 = Utf8Codec

  /**
    C arguments.  A sized text, wide or not, and a byte string are a pointer together with a length; the
    other texts end at a NUL.
  */
  datatype Arg =
    | IntArg(i: int)
    | BoolArg(b: bool)
    | RealArg(d: real)
    | TextArg(text: seq<byte>)
    | BytesArg(data: seq<byte>)
    | WideArg(chars: seq<nat>)
    | SizedWideArg(chars: seq<nat>)
    | PointerArg(p: nat)
    | ValueArg(v: Value)

  /**
    Undefined is what the C language leaves undefined, arguments that do not match the format, and
    assertions that fail.
  */
  datatype Built =
    | Built(value: Value, format: string, args: seq<Arg>)
    | Refused(fault: Fault)
    | Undefined

  /** A code that takes at most one argument; `rest` is the format behind the code. */
  function GetScalar(code: char, rest: string, args: seq<Arg>): (r: Built)
    ensures r.Built? ==> |r.format| <= |rest|
  {
    if code == 'n' then Built(Atom(Nil), rest, args)
    else if code !in "ibdsw86pASV" then Refused(InternalError)
    else if args == [] then Undefined
    else
      var a, more := args[0], args[1..];
      match code
      case 'i' => if a.IntArg? then Built(Atom(Int(a.i)), rest, more) else Undefined
      case 'b' => if a.BoolArg? then Built(Atom(Bool(a.b)), rest, more) else Undefined
      case 'd' => if a.RealArg? then Built(Atom(Double(a.d)), rest, more) else Undefined
      case 's' =>
        if rest != "" && rest[0] == '#' then
          if a.BytesArg? then Built(Atom(String(a.data)), rest[1..], more) else Undefined
        else if a.TextArg? then Built(Atom(String(CString(a.text))), rest, more)
        else Undefined
      case 'w' =>
        if rest != "" && rest[0] == '#' then
          if a.SizedWideArg? then BuiltWide(a.chars, rest[1..], more) else Undefined
        else if a.WideArg? then BuiltWide(WideCString(a.chars), rest, more)
        else Undefined
      case '8' => if a.TextArg? then Built(Atom(DateTime(CString(a.text))), rest, more) else Undefined
      case '6' => if a.BytesArg? then Built(Atom(Base64(a.data)), rest, more) else Undefined
      case 'p' => if a.PointerArg? then Built(Atom(Pointer(a.p)), rest, more) else Undefined
      case 'A' =>
        if !a.ValueArg? then Undefined
        else if a.v.ArrayOf? then Built(a.v, rest, more)
        else Refused(InternalError)
      case 'S' =>
        if !a.ValueArg? then Undefined
        else if a.v.StructOf? then Built(a.v, rest, more)
        else Refused(InternalError)
      case _ => if a.ValueArg? then Built(a.v, rest, more) else Undefined
  }

  /** A wide C string ends at the first NUL. */
  function WideCString(chars: seq<nat>): seq<nat> {
    if chars == [] || chars[0] == 0 then [] else [chars[0]] + WideCString(chars[1..])
  }

  /** A wide string is kept as UTF-8; characters beyond the Basic Multilingual Plane are refused. */
  function BuiltWide(chars: seq<nat>, rest: string, more: seq<Arg>): (r: Built)
    ensures r.Built? ==> r.format == rest
  {
    match Utf8.Encode(chars)
    case Ok(text) => Built(Atom(String(text)), rest, more)
    case Err(_) => Refused(InternalError)
  }

  function GetValue(format: string, args: seq<Arg>): (r: Built)
    ensures r.Built? ==> |r.format| < |format|
    decreases |format|, 0
  {
    if format == "" then Refused(InternalError)
    else if format[0] == '(' then GetArray(format[1..], args, [])
    else if format[0] == '{' then GetStruct(format[1..], args, [])
    else GetScalar(format[0], format[1..], args)
  }

  /** The items up to the closing parenthesis, which is skipped. */
  function GetArray(format: string, args: seq<Arg>, items: seq<Value>): (r: Built)
    ensures r.Built? ==> |r.format| < |format|
    decreases |format|, 1
  {
    if format == "" then Refused(InternalError)
    else if format[0] == ')' then Built(ArrayOf(items), format[1..], args)
    else
      match GetValue(format, args)
      case Built(v, rest, more) => GetArray(rest, more, items + [v])
      case Refused(f) => Refused(f)
      case Undefined => Undefined
  }

  datatype BuiltMember =
    | BuiltMember(key: Value, value: Value, format: string, args: seq<Arg>)
    | RefusedMember(fault: Fault)
    | UndefinedMember

  /** A key, a colon and a value. */
  function GetStructMember(format: string, args: seq<Arg>): (r: BuiltMember)
    ensures r.BuiltMember? ==> |r.format| < |format|
    decreases |format|, 1
  {
    match GetValue(format, args)
    case Refused(f) => RefusedMember(f)
    case Undefined => UndefinedMember
    case Built(key, afterKey, args1) =>
      if afterKey == "" || afterKey[0] != ':' then RefusedMember(InternalError)
      else
        match GetValue(afterKey[1..], args1)
        case Refused(f) => RefusedMember(f)
        case Undefined => UndefinedMember
        case Built(v, afterValue, args2) => BuiltMember(key, v, afterValue, args2)
  }

  /** The members up to the closing brace; a comma may follow each of them, also the last. */
  function GetStruct(format: string, args: seq<Arg>, entries: seq<Entry>): (r: Built)
    ensures r.Built? ==> |r.format| < |format|
    decreases |format|, 2
  {
    if format != "" && format[0] == '}' then Built(StructOf(entries), format[1..], args)
    else
      match GetStructMember(format, args)
      case RefusedMember(f) => Refused(f)
      case UndefinedMember => Undefined
      case BuiltMember(key, v, rest, more) =>
        if rest == "" || (rest[0] != ',' && rest[0] != '}') then Refused(InternalError)
        else if !IsText(key) then Refused(TypeError)
        else GetStruct(AfterComma(rest), more, SetEntry(entries, key.scalar.text, v))
  }

  predicate IsText(v: Value) {
    v.Atom? && v.scalar.String?
  }

  function AfterComma(format: string): string
    requires format != ""
  {
    if format[0] == ',' then format[1..] else format
  }

  /** The format must hold exactly one specifier. */
  function BuildValue(format: string, args: seq<Arg>): Built {
    var r := GetValue(format, args);
    if r.Built? && r.format != "" then Refused(InternalError) else r
  }

  // ----- taking values apart -----

  /**
    What was written through the pointers that the caller passed, in order.  Unclear are failed
    assertions and, in the case of wide strings, what depends on how a text came to be that is not valid
    UTF-8 (see `TakeWide`).
  */
  datatype Taken =
    | Taken(outs: seq<Arg>, format: string, keys: seq<Arg>)
    | Failed(fault: Fault)
    | Unclear

  function Find(entries: seq<Entry>, key: seq<byte>): Option<Value> {
    if entries == [] then None
    else if entries[0].key == key then Some(entries[0].value)
    else Find(entries[1..], key)
  }

  ghost function TakeScalar(v: Value, code: char, rest: string, keys: seq<Arg>): (r: Taken)
    ensures r.Taken? ==> |r.format| <= |rest|
  {
    if code == 'V' then Taken([ValueArg(v)], rest, keys)
    else if code == 'A' then if v.ArrayOf? then Taken([ValueArg(v)], rest, keys) else Failed(TypeError)
    else if code == 'S' then if v.StructOf? then Taken([ValueArg(v)], rest, keys) else Failed(TypeError)
    else if code !in "ibd8sw6np" then Failed(InternalError)
    else if !v.Atom? then Failed(TypeError)
    else
      match v.scalar
      case Int(i) => if code == 'i' then Taken([IntArg(i)], rest, keys) else Failed(TypeError)
      case Bool(b) => if code == 'b' then Taken([BoolArg(b)], rest, keys) else Failed(TypeError)
      case Double(d) => if code == 'd' then Taken([RealArg(d)], rest, keys) else Failed(TypeError)
      case DateTime(t) => if code == '8' then Taken([TextArg(t)], rest, keys) else Failed(TypeError)
      case Base64(data) => if code == '6' then Taken([BytesArg(data)], rest, keys) else Failed(TypeError)
      case Nil => if code == 'n' then Taken([], rest, keys) else Failed(TypeError)
      case Pointer(p) => if code == 'p' then Taken([PointerArg(p)], rest, keys) else Failed(TypeError)
      case String(text) =>
        if code == 'w' then
          if rest != "" && rest[0] == '#' then TakeWide(text, true, rest[1..], keys)
          else TakeWide(text, false, rest, keys)
        else if code != 's' then Failed(TypeError)
        else if rest != "" && rest[0] == '#' then Taken([BytesArg(text)], rest[1..], keys)
        else if HasNul(text) then Failed(TypeError)
        else Taken([TextArg(text)], rest, keys)
  }

  /**
    The wide characters of a text.  The original remembers them with a value that was built from them or
    has been asked for them before; by `EncodeInjective` these are the characters the text decodes to, if
    it does.  A text that does not, but is the encoding of characters that are not legal, is therefore
    given back or refused depending on what it was built from.
  */
  ghost function TakeWide(text: seq<byte>, sized: bool, rest: string, keys: seq<Arg>): (r: Taken)
    ensures r.Taken? ==> r.format == rest
  {
    match Utf8.Decode(text)
    case Ok(chars) =>
      if sized then Taken([SizedWideArg(chars)], rest, keys)
      else if 0 in chars then Failed(TypeError)
      else Taken([WideArg(chars)], rest, keys)
    case Err(_) =>
      if exists chars :: Utf8.Encode(chars) == Ok(text) then Unclear else Failed(InvalidUtf8)
  }

  predicate HasNul(text: seq<byte>) {
    exists k :: 0 <= k < |text| && text[k] == 0
  }

  ghost function Take(v: Value, format: string, keys: seq<Arg>): (r: Taken)
    ensures r.Taken? ==> |r.format| < |format|
    decreases |format|, 0
  {
    if format == "" then Failed(InternalError)
    else if format[0] == '(' then
      if v.ArrayOf? then TakeItems(v.items, format[1..], keys, []) else Failed(TypeError)
    else if format[0] == '{' then
      if v.StructOf? then TakeMembers(v.entries, format[1..], keys, []) else Failed(TypeError)
    else TakeScalar(v, format[0], format[1..], keys)
  }

  /** A star means that the remaining items do not matter. */
  ghost function TakeItems(items: seq<Value>, format: string, keys: seq<Arg>, outs: seq<Arg>): (r: Taken)
    ensures r.Taken? ==> |r.format| < |format|
    decreases |format|, 1
  {
    if items != [] && format == "" then Unclear
    else if items != [] && format[0] != '*' then
      if format[0] == ')' then Failed(IndexError)
      else
        match Take(items[0], format, keys)
        case Taken(more, rest, keys1) => TakeItems(items[1..], rest, keys1, outs + more)
        case Failed(f) => Failed(f)
        case Unclear => Unclear
    else
      var rest := if format != "" && format[0] == '*' then format[1..] else format;
      if rest == "" || rest[0] != ')' then Failed(IndexError) else Taken(outs, rest[1..], keys)
  }

  /** A key that the caller passes is looked up, and the value found is taken apart. */
  ghost function TakeMember(entries: seq<Entry>, format: string, keys: seq<Arg>): (r: Taken)
    ensures r.Taken? ==> |r.format| < |format|
    decreases |format|, 1
  {
    match GetValue(format, keys)
    case Refused(f) => Failed(f)
    case Undefined => Unclear
    case Built(key, afterKey, keys1) =>
      if afterKey == "" || afterKey[0] != ':' then Unclear
      else if !IsText(key) then Failed(TypeError)
      else
        match Find(entries, key.scalar.text)
        case None => Failed(IndexError)
        case Some(v) =>
          match Take(v, afterKey[1..], keys1)
          case Failed(f) => Failed(f)
          case Unclear => Unclear
          case Taken(more, rest, keys2) =>
            if rest == "" || (rest[0] != ',' && rest[0] != '}') then Unclear
            else Taken(more, AfterComma(rest), keys2)
  }

  /** The star at the end is required. */
  ghost function TakeMembers(entries: seq<Entry>, format: string, keys: seq<Arg>, outs: seq<Arg>): (r: Taken)
    ensures r.Taken? ==> |r.format| < |format|
    decreases |format|, 2
  {
    if format == "" || format[0] == '}' then Failed(InternalError)
    else if format[0] == '*' then
      if format[1..] == "" then Unclear
      else if format[1] != '}' then Failed(InternalError)
      else Taken(outs, format[2..], keys)
    else
      match TakeMember(entries, format, keys)
      case Failed(f) => Failed(f)
      case Unclear => Unclear
      case Taken(more, rest, keys1) => TakeMembers(entries, rest, keys1, outs + more)
  }
}
