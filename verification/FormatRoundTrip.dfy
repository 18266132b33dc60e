/** Building a value and taking it apart again returns the arguments. */
module FormatRoundTrip {
  import opened Bytes
  import opened Outcomes
  import opened Sequences
  import opened Numerals
  import opened Values
  import opened FormatSpecs
  import Utf8 = Utf8Codec

  /** A format together with the arguments for it: how a caller would write both. */
  datatype Call =
    | Nothing
    | One(code: char, arg: Arg)
    | ArrayCall(items: seq<Call>)
    | StructCall(members: seq<MemberCall>)

  /** A key is given by any code that makes a string. */
  datatype MemberCall = MemberCall(code: char, key: Arg, value: Call)

  predicate NoNul(text: seq<byte>) {
    !HasNul(text)
  }

  predicate Matches(code: char, arg: Arg) {
    match arg
    case IntArg(_) => code == 'i'
    case BoolArg(_) => code == 'b'
    case RealArg(_) => code == 'd'
    case TextArg(text) => (code == 's' || code == '8') && NoNul(text)
    case BytesArg(_) => code == 's' || code == '6'
    case WideArg(chars) => code == 'w' && 0 !in chars && Utf8.Encode(chars).Ok?
    case SizedWideArg(chars) => code == 'w' && Utf8.Encode(chars).Ok?
    case PointerArg(_) => code == 'p'
    case ValueArg(v) => code == 'V' || (code == 'A' && v.ArrayOf?) || (code == 'S' && v.StructOf?)
  }

  /** What is given back whatever else has happened to the value: wide characters must be legal. */
  predicate MatchesBack(arg: Arg) {
    match arg
    case WideArg(chars) => forall i :: 0 <= i < |chars| ==> Utf8.Legal(chars[i])
    case SizedWideArg(chars) => forall i :: 0 <= i < |chars| ==> Utf8.Legal(chars[i])
    case _ => true
  }

  /** A text with a length has a number sign behind its code. */
  function Spelled(code: char, arg: Arg): string {
    if Sized(code, arg) then [code, '#'] else [code]
  }

  predicate Sized(code: char, arg: Arg) {
    (code == 's' && arg.BytesArg?) || (code == 'w' && arg.SizedWideArg?)
  }

  predicate MatchesKey(code: char, key: Arg) {
    Matches(code, key) && IsText(ArgMeaning(code, key))
  }

  function KeyText(m: MemberCall): seq<byte> {
    var v := ArgMeaning(m.code, m.key);
    if IsText(v) then v.scalar.text else []
  }

  /** Arguments match their codes, and no struct has a key twice. */
  ghost predicate WellFormed(c: Call)
    decreases c
  {
    match c
    case Nothing => true
    case One(code, arg) => Matches(code, arg)
    case ArrayCall(items) => forall i :: 0 <= i < |items| ==> WellFormed(items[i])
    case StructCall(members) =>
      && (forall i :: 0 <= i < |members| ==> MemberOk(members[i]))
      && forall i, j :: 0 <= i < j < |members| ==> KeyText(members[i]) != KeyText(members[j])
  }

  ghost predicate MemberOk(m: MemberCall)
    decreases m
  {
    MatchesKey(m.code, m.key) && WellFormed(m.value)
  }

  /** All arguments but the keys can be read back. */
  ghost predicate Readable(c: Call)
    decreases c
  {
    match c
    case Nothing => true
    case One(_, arg) => MatchesBack(arg)
    case ArrayCall(items) => forall i :: 0 <= i < |items| ==> Readable(items[i])
    case StructCall(members) => forall i :: 0 <= i < |members| ==> ReadableMember(members[i])
  }

  ghost predicate ReadableMember(m: MemberCall)
    decreases m
  {
    Readable(m.value)
  }

  function KeyFormat(m: MemberCall): string {
    Spelled(m.code, m.key)
  }

  // ----- the two formats -----

  function BuildFormat(c: Call): string
    decreases c
  {
    match c
    case Nothing => "n"
    case One(code, arg) => Spelled(code, arg)
    case ArrayCall(items) => "(" + BuildItems(items) + ")"
    case StructCall(members) => "{" + BuildMembers(members) + "}"
  }

  function BuildItems(cs: seq<Call>): string
    decreases cs
  {
    if cs == [] then "" else BuildFormat(cs[0]) + BuildItems(cs[1..])
  }

  function BuildMember(m: MemberCall): string
    decreases m
  {
    KeyFormat(m) + ":" + BuildFormat(m.value)
  }

  function BuildMembers(ms: seq<MemberCall>): string
    decreases ms
  {
    if ms == [] then ""
    else BuildMember(ms[0]) + (if |ms| == 1 then "" else ",") + BuildMembers(ms[1..])
  }

  /** The format for taking apart closes each struct with a star. */
  function TakeFormat(c: Call): string
    decreases c
  {
    match c
    case Nothing => "n"
    case One(code, arg) => Spelled(code, arg)
    case ArrayCall(items) => "(" + TakeItemsFormat(items) + ")"
    case StructCall(members) => "{" + TakeMembersFormat(members) + "*}"
  }

  function TakeItemsFormat(cs: seq<Call>): string
    decreases cs
  {
    if cs == [] then "" else TakeFormat(cs[0]) + TakeItemsFormat(cs[1..])
  }

  function TakeMemberFormat(m: MemberCall): string
    decreases m
  {
    KeyFormat(m) + ":" + TakeFormat(m.value) + ","
  }

  function TakeMembersFormat(ms: seq<MemberCall>): string
    decreases ms
  {
    if ms == [] then "" else TakeMemberFormat(ms[0]) + TakeMembersFormat(ms[1..])
  }

  // ----- the arguments: all of them, the keys alone, and the others -----

  function AllArgs(c: Call): seq<Arg>
    decreases c
  {
    match c
    case Nothing => []
    case One(_, arg) => [arg]
    case ArrayCall(items) => ItemsArgs(items)
    case StructCall(members) => MembersArgs(members)
  }

  function ItemsArgs(cs: seq<Call>): seq<Arg>
    decreases cs
  {
    if cs == [] then [] else AllArgs(cs[0]) + ItemsArgs(cs[1..])
  }

  function MemberArgs(m: MemberCall): seq<Arg>
    decreases m
  {
    [m.key] + AllArgs(m.value)
  }

  function MembersArgs(ms: seq<MemberCall>): seq<Arg>
    decreases ms
  {
    if ms == [] then [] else MemberArgs(ms[0]) + MembersArgs(ms[1..])
  }

  function KeyArgs(c: Call): seq<Arg>
    decreases c
  {
    match c
    case Nothing => []
    case One(_, _) => []
    case ArrayCall(items) => ItemsKeys(items)
    case StructCall(members) => MembersKeys(members)
  }

  function ItemsKeys(cs: seq<Call>): seq<Arg>
    decreases cs
  {
    if cs == [] then [] else KeyArgs(cs[0]) + ItemsKeys(cs[1..])
  }

  function MemberKeys(m: MemberCall): seq<Arg>
    decreases m
  {
    [m.key] + KeyArgs(m.value)
  }

  function MembersKeys(ms: seq<MemberCall>): seq<Arg>
    decreases ms
  {
    if ms == [] then [] else MemberKeys(ms[0]) + MembersKeys(ms[1..])
  }

  function ValueArgs(c: Call): seq<Arg>
    decreases c
  {
    match c
    case Nothing => []
    case One(_, arg) => [arg]
    case ArrayCall(items) => ItemsValues(items)
    case StructCall(members) => MembersValues(members)
  }

  function ItemsValues(cs: seq<Call>): seq<Arg>
    decreases cs
  {
    if cs == [] then [] else ValueArgs(cs[0]) + ItemsValues(cs[1..])
  }

  function MemberValues(m: MemberCall): seq<Arg>
    decreases m
  {
    ValueArgs(m.value)
  }

  function MembersValues(ms: seq<MemberCall>): seq<Arg>
    decreases ms
  {
    if ms == [] then [] else MemberValues(ms[0]) + MembersValues(ms[1..])
  }

  /** The value that the call describes. */
  function Meaning(c: Call): Value
    decreases c
  {
    match c
    case Nothing => Atom(Nil)
    case One(code, arg) => ArgMeaning(code, arg)
    case ArrayCall(items) => ArrayOf(Meanings(items))
    case StructCall(members) => StructOf(Entries(members))
  }

  function ArgMeaning(code: char, arg: Arg): Value {
    match arg
    case IntArg(i) => Atom(Int(i))
    case BoolArg(b) => Atom(Bool(b))
    case RealArg(d) => Atom(Double(d))
    case TextArg(text) => if code == 's' then Atom(String(text)) else Atom(DateTime(text))
    case WideArg(chars) => WideMeaning(chars)
    case SizedWideArg(chars) => WideMeaning(chars)
    case BytesArg(data) => if code == '6' then Atom(Base64(data)) else Atom(String(data))
    case PointerArg(p) => Atom(Pointer(p))
    case ValueArg(v) => v
  }

  function WideMeaning(chars: seq<nat>): Value {
    Atom(String(if Utf8.Encode(chars).Ok? then Utf8.Encode(chars).value else []))
  }

  function Meanings(cs: seq<Call>): seq<Value>
    decreases cs
  {
    if cs == [] then [] else [Meaning(cs[0])] + Meanings(cs[1..])
  }

  function EntryOf(m: MemberCall): Entry
    decreases m
  {
    Entry(KeyText(m), Meaning(m.value))
  }

  function Entries(ms: seq<MemberCall>): seq<Entry>
    decreases ms
  {
    if ms == [] then [] else [EntryOf(ms[0])] + Entries(ms[1..])
  }

  // ----- the interpreters on such formats -----

  predicate Starts(format: string) {
    format != "" && format[0] in "nibdsw86pVAS({"
  }

  lemma FormatStarts(c: Call)
    requires WellFormed(c)
    ensures Starts(BuildFormat(c)) && Starts(TakeFormat(c))
  {
    if c.One? {
      assert Matches(c.code, c.arg);
    }
  }

  /** The format behind a code: a number sign for a sized argument, and then the rest. */
  predicate Behind(code: char, arg: Arg, after: string, rest: string) {
    if Sized(code, arg) then after != "" && after[0] == '#' && after[1..] == rest else after == rest && NoHash(rest)
  }

  lemma SpelledThen(code: char, arg: Arg, rest: string)
    requires NoHash(rest)
    ensures var f := Spelled(code, arg) + rest;
            f != "" && f[0] == code && Behind(code, arg, f[1..], rest)
  {}

  lemma {:induction false} WideCStringWhole(chars: seq<nat>)
    requires 0 !in chars
    ensures WideCString(chars) == chars
  {
    if chars != [] {
      WideCStringWhole(chars[1..]);
      assert chars == [chars[0]] + chars[1..];
    }
  }

  lemma ScalarBuilds(code: char, arg: Arg, after: string, rest: string, more: seq<Arg>)
    requires Matches(code, arg) && Behind(code, arg, after, rest)
    ensures GetScalar(code, after, [arg] + more) == Built(ArgMeaning(code, arg), rest, more)
  {
    hide CString, WideCString, Utf8.Encode;
    assert ([arg] + more)[1..] == more;
    if arg.TextArg? {
      CStringWhole(arg.text);
    } else if arg.WideArg? {
      WideCStringWhole(arg.chars);
    }
  }

  lemma CodeBuilds(code: char, arg: Arg, rest: string, more: seq<Arg>)
    requires Matches(code, arg) && NoHash(rest)
    ensures GetValue(Spelled(code, arg) + rest, [arg] + more) == Built(ArgMeaning(code, arg), rest, more)
  {
    SpelledThen(code, arg, rest);
    var f := Spelled(code, arg) + rest;
    ScalarBuilds(code, arg, f[1..], rest, more);
    CodeIsScalar(code, arg);
    hide Spelled, GetScalar, GetArray, GetStruct, Matches, Behind, ArgMeaning;
  }

  lemma CodeIsScalar(code: char, arg: Arg)
    requires Matches(code, arg)
    ensures code !in "({" && code in "ibdsw86pVAS"
  {}

  lemma WideTakes(chars: seq<nat>, sized: bool, rest: string, keys: seq<Arg>)
    requires Utf8.Encode(chars).Ok? && (sized || 0 !in chars)
    requires forall i :: 0 <= i < |chars| ==> Utf8.Legal(chars[i])
    ensures TakeWide(Utf8.Encode(chars).value, sized, rest, keys)
         == Taken([if sized then SizedWideArg(chars) else WideArg(chars)], rest, keys)
  {
    Utf8.DecodesExactly(Utf8.Encode(chars).value, chars);
  }

  lemma ScalarTakes(code: char, arg: Arg, after: string, rest: string, keys: seq<Arg>)
    requires Matches(code, arg) && MatchesBack(arg) && Behind(code, arg, after, rest)
    ensures TakeScalar(ArgMeaning(code, arg), code, after, keys) == Taken([arg], rest, keys)
  {
    if arg.WideArg? || arg.SizedWideArg? {
      WideTakes(arg.chars, arg.SizedWideArg?, rest, keys);
    }
    hide HasNul, TakeWide, Utf8.Encode, Utf8.Legal;
  }

  lemma CodeTakes(code: char, arg: Arg, rest: string, keys: seq<Arg>)
    requires Matches(code, arg) && MatchesBack(arg) && NoHash(rest)
    ensures Take(ArgMeaning(code, arg), Spelled(code, arg) + rest, keys) == Taken([arg], rest, keys)
  {
    SpelledThen(code, arg, rest);
    var f := Spelled(code, arg) + rest;
    ScalarTakes(code, arg, f[1..], rest, keys);
    CodeIsScalar(code, arg);
    hide Spelled, TakeScalar, TakeItems, TakeMembers, Matches, MatchesBack, Behind, ArgMeaning;
  }

  lemma Regrouped(a: string, b: string, c: string, d: string)
    ensures (a + b + c) + d == a + (b + (c + d))
  {}

  lemma NothingBefore(a: string)
    ensures "" + a == a
  {}

  predicate NoHash(rest: string) {
    rest == "" || rest[0] != '#'
  }

  lemma StartsThen(format: string, rest: string)
    requires Starts(format)
    ensures Starts(format + rest) && NoHash(format + rest) && format + rest != ""
    ensures (format + rest)[0] == format[0] && format[0] !in ")}*,:#"
  {}

  lemma SkipOne(c: char, rest: string)
    ensures [c] + rest != "" && ([c] + rest)[0] == c && ([c] + rest)[1..] == rest
  {}

  /** The key of a member, in either format. */
  lemma KeyBuilds(m: MemberCall, rest: string, more: seq<Arg>)
    requires MatchesKey(m.code, m.key) && NoHash(rest)
    ensures GetValue(KeyFormat(m) + rest, [m.key] + more) == Built(Atom(String(KeyText(m))), rest, more)
    ensures Starts(KeyFormat(m))
  {
    CodeBuilds(m.code, m.key, rest, more);
  }

  ghost predicate AllWellFormed(cs: seq<Call>) {
    forall i :: 0 <= i < |cs| ==> WellFormed(cs[i])
  }

  ghost predicate AllMembersOk(ms: seq<MemberCall>) {
    forall i :: 0 <= i < |ms| ==> MemberOk(ms[i])
  }

  ghost predicate AllReadable(cs: seq<Call>) {
    forall i :: 0 <= i < |cs| ==> Readable(cs[i])
  }

  ghost predicate AllMembersReadable(ms: seq<MemberCall>) {
    forall i :: 0 <= i < |ms| ==> ReadableMember(ms[i])
  }

  /** What follows an item: another one, or the end of the list. */
  lemma ItemsThen(cs: seq<Call>, close: char, rest: string)
    requires AllWellFormed(cs) && close != '#'
    ensures var f := BuildItems(cs) + ([close] + rest); f != "" && NoHash(f) && (cs != [] ==> Starts(f))
    ensures var f := TakeItemsFormat(cs) + ([close] + rest); f != "" && NoHash(f) && (cs != [] ==> Starts(f))
  {
    SkipOne(close, rest);
    if cs == [] {
      assert "" + ([close] + rest) == [close] + rest;
    } else {
      FormatStarts(cs[0]);
      StartsThen(BuildFormat(cs[0]), BuildItems(cs[1..]));
      StartsThen(BuildItems(cs), [close] + rest);
      StartsThen(TakeFormat(cs[0]), TakeItemsFormat(cs[1..]));
      StartsThen(TakeItemsFormat(cs), [close] + rest);
    }
  }

  lemma {:induction false} ItemsBuild(cs: seq<Call>, rest: string, more: seq<Arg>, done: seq<Value>)
    requires AllWellFormed(cs)
    ensures GetArray(BuildItems(cs) + ([')'] + rest), ItemsArgs(cs) + more, done)
         == Built(ArrayOf(done + Meanings(cs)), rest, more)
    decreases cs, 0
  {
    var close := [')'] + rest;
    SkipOne(')', rest);
    if cs == [] {
      assert "" + close == close && [] + more == more && done + [] == done;
    } else {
      var tail, args := BuildItems(cs[1..]) + close, ItemsArgs(cs[1..]) + more;
      ItemsThen(cs, ')', rest);
      ItemsThen(cs[1..], ')', rest);
      ConcatAssociative(BuildFormat(cs[0]), BuildItems(cs[1..]), close);
      ConcatAssociative(AllArgs(cs[0]), ItemsArgs(cs[1..]), more);
      ConcatAssociative(done, [Meaning(cs[0])], Meanings(cs[1..]));
      Builds(cs[0], tail, args);
      ItemsBuild(cs[1..], rest, more, done + [Meaning(cs[0])]);
      ArrayStep(BuildItems(cs) + close, ItemsArgs(cs) + more, done, Meaning(cs[0]), tail, args);
    }
  }

  lemma ArrayStep(format: string, args: seq<Arg>, done: seq<Value>, v: Value, rest: string, more: seq<Arg>)
    requires Starts(format) && GetValue(format, args) == Built(v, rest, more)
    ensures GetArray(format, args, done) == GetArray(rest, more, done + [v])
  {}

  lemma {:induction false} Builds(c: Call, rest: string, more: seq<Arg>)
    requires WellFormed(c) && NoHash(rest)
    ensures GetValue(BuildFormat(c) + rest, AllArgs(c) + more) == Built(Meaning(c), rest, more)
    decreases c, 1
  {
    match c {
      case Nothing =>
        SkipOne('n', rest);
        assert [] + more == more;
      case One(code, arg) => CodeBuilds(code, arg, rest, more);
      case ArrayCall(items) =>
        var body := BuildItems(items);
        Regrouped("(", body, ")", rest);
        SkipOne('(', body + ([')'] + rest));
        ItemsBuild(items, rest, more, []);
        assert [] + Meanings(items) == Meanings(items);
      case StructCall(members) =>
        var body := BuildMembers(members);
        Regrouped("{", body, "}", rest);
        SkipOne('{', body + (['}'] + rest));
        EntriesDistinct(members);
        assert [] + Entries(members) == Entries(members);
        MembersBuild(members, rest, more, []);
    }
  }

  lemma {:induction false} EntriesAt(ms: seq<MemberCall>)
    ensures |Entries(ms)| == |ms| && forall i :: 0 <= i < |ms| ==> Entries(ms)[i] == EntryOf(ms[i])
  {
    if ms != [] {
      EntriesAt(ms[1..]);
    }
  }

  lemma EntriesHead(ms: seq<MemberCall>)
    requires ms != []
    ensures Entries(ms) != [] && Entries(ms)[0] == EntryOf(ms[0]) && Entries(ms)[1..] == Entries(ms[1..])
  {}

  lemma EntriesDistinct(ms: seq<MemberCall>)
    requires forall i, j :: 0 <= i < j < |ms| ==> KeyText(ms[i]) != KeyText(ms[j])
    ensures KeysDistinct(Entries(ms))
  {
    EntriesAt(ms);
  }

  lemma {:induction false} MembersBuild(ms: seq<MemberCall>, rest: string, more: seq<Arg>, done: seq<Entry>)
    requires AllMembersOk(ms) && KeysDistinct(done + Entries(ms))
    ensures GetStruct(BuildMembers(ms) + (['}'] + rest), MembersArgs(ms) + more, done)
         == Built(StructOf(done + Entries(ms)), rest, more)
    decreases ms, 0
  {
    var close := ['}'] + rest;
    SkipOne('}', rest);
    if ms == [] {
      assert "" + close == close && [] + more == more && done + [] == done;
    } else {
      var m := ms[0];
      var next, args := BuildMembers(ms[1..]) + close, MembersArgs(ms[1..]) + more;
      var tail := (if |ms| == 1 then "" else ",") + next;
      MemberThen(ms, rest);
      MemberBuilds(m, tail, args);
      ConcatAssociative(MemberArgs(m), MembersArgs(ms[1..]), more);
      EntriesHead(ms);
      NextKeyNew(done, Entries(ms));
      SetEntryNew(done, KeyText(m), Meaning(m.value));
      MembersBuild(ms[1..], rest, more, done + [EntryOf(m)]);
      StructStep(BuildMembers(ms) + close, MembersArgs(ms) + more, done, KeyText(m), Meaning(m.value), tail, args);
    }
  }

  /** What follows a member: a comma and another one, or the end of the struct. */
  lemma MemberThen(ms: seq<MemberCall>, rest: string)
    requires ms != []
    ensures var next := BuildMembers(ms[1..]) + (['}'] + rest);
            var tail := (if |ms| == 1 then "" else ",") + next;
            && tail != "" && (tail[0] == ',' || tail[0] == '}') && AfterComma(tail) == next
            && BuildMembers(ms) + (['}'] + rest) == BuildMember(ms[0]) + tail
  {
    var next := BuildMembers(ms[1..]) + (['}'] + rest);
    var separator := if |ms| == 1 then "" else ",";
    assert BuildMembers(ms) == BuildMember(ms[0]) + separator + BuildMembers(ms[1..]);
    SkipOne('}', rest);
    NothingBefore(next);
    NothingBefore(['}'] + rest);
    SkipOne(',', next);
    hide BuildMember;
    Regrouped(BuildMember(ms[0]), separator, BuildMembers(ms[1..]), ['}'] + rest);
  }

  lemma {:induction false} MemberBuilds(m: MemberCall, tail: string, args: seq<Arg>)
    requires MemberOk(m) && NoHash(tail)
    ensures GetStructMember(BuildMember(m) + tail, MemberArgs(m) + args)
         == BuiltMember(Atom(String(KeyText(m))), Meaning(m.value), tail, args)
    ensures Starts(BuildMember(m) + tail)
    decreases m, 0
  {
    var afterKey := [':'] + (BuildFormat(m.value) + tail);
    SkipOne(':', BuildFormat(m.value) + tail);
    KeyBuilds(m, afterKey, AllArgs(m.value) + args);
    Builds(m.value, tail, args);
    Regrouped(KeyFormat(m), ":", BuildFormat(m.value), tail);
    StartsThen(KeyFormat(m), afterKey);
    ConcatAssociative([m.key], AllArgs(m.value), args);
  }

  lemma StructStep(format: string, args: seq<Arg>, done: seq<Entry>, key: seq<byte>, v: Value, rest: string,
                   more: seq<Arg>)
    requires Starts(format)
    requires GetStructMember(format, args) == BuiltMember(Atom(String(key)), v, rest, more)
    requires rest != "" && (rest[0] == ',' || rest[0] == '}')
    ensures GetStruct(format, args, done) == GetStruct(AfterComma(rest), more, SetEntry(done, key, v))
  {}

  // ----- taking apart -----

  lemma {:induction false} FindEntryAt(es: seq<Entry>, i: nat)
    requires KeysDistinct(es) && i < |es|
    ensures Find(es, es[i].key) == Some(es[i].value)
  {
    if i > 0 {
      assert es[0].key != es[i].key;
      assert forall j :: 0 <= j < |es[1..]| ==> es[1..][j] == es[j + 1];
      FindEntryAt(es[1..], i - 1);
    }
  }

  lemma ItemsStep(items: seq<Value>, format: string, keys: seq<Arg>, outs: seq<Arg>, more: seq<Arg>,
                  rest: string, keys1: seq<Arg>)
    requires items != [] && Starts(format) && Take(items[0], format, keys) == Taken(more, rest, keys1)
    ensures TakeItems(items, format, keys, outs) == TakeItems(items[1..], rest, keys1, outs + more)
  {}

  lemma {:induction false} ItemsTake(cs: seq<Call>, rest: string, keys: seq<Arg>, outs: seq<Arg>)
    requires AllWellFormed(cs) && AllReadable(cs)
    ensures TakeItems(Meanings(cs), TakeItemsFormat(cs) + ([')'] + rest), ItemsKeys(cs) + keys, outs)
         == Taken(outs + ItemsValues(cs), rest, keys)
    decreases cs, 0
  {
    var close := [')'] + rest;
    SkipOne(')', rest);
    if cs == [] {
      assert "" + close == close && [] + keys == keys && outs + [] == outs;
    } else {
      var tail, keys1 := TakeItemsFormat(cs[1..]) + close, ItemsKeys(cs[1..]) + keys;
      ItemsThen(cs, ')', rest);
      ItemsThen(cs[1..], ')', rest);
      ConcatAssociative(TakeFormat(cs[0]), TakeItemsFormat(cs[1..]), close);
      ConcatAssociative(KeyArgs(cs[0]), ItemsKeys(cs[1..]), keys);
      ConcatAssociative(outs, ValueArgs(cs[0]), ItemsValues(cs[1..]));
      Takes(cs[0], tail, keys1);
      ItemsTake(cs[1..], rest, keys, outs + ValueArgs(cs[0]));
      assert Meanings(cs)[1..] == Meanings(cs[1..]);
      ItemsStep(Meanings(cs), TakeItemsFormat(cs) + close, ItemsKeys(cs) + keys, outs, ValueArgs(cs[0]), tail, keys1);
    }
  }

  lemma {:induction false} Takes(c: Call, rest: string, keys: seq<Arg>)
    requires WellFormed(c) && Readable(c) && NoHash(rest)
    ensures Take(Meaning(c), TakeFormat(c) + rest, KeyArgs(c) + keys) == Taken(ValueArgs(c), rest, keys)
    decreases c, 1
  {
    match c {
      case Nothing =>
        SkipOne('n', rest);
        assert [] + keys == keys;
      case One(code, arg) =>
        CodeTakes(code, arg, rest, keys);
        assert [] + keys == keys;
      case ArrayCall(items) =>
        var body := TakeItemsFormat(items);
        Regrouped("(", body, ")", rest);
        SkipOne('(', body + ([')'] + rest));
        ItemsTake(items, rest, keys, []);
        assert [] + ItemsValues(items) == ItemsValues(items);
      case StructCall(members) =>
        var body := TakeMembersFormat(members);
        Regrouped("{", body, "*}", rest);
        SkipOne('{', body + ("*}" + rest));
        EntriesDistinct(members);
        assert [] + MembersValues(members) == MembersValues(members);
        assert members[0..] == members;
        MembersTake(members, 0, rest, keys, []);
    }
  }

  lemma MembersStep(es: seq<Entry>, format: string, keys: seq<Arg>, outs: seq<Arg>, more: seq<Arg>,
                    rest: string, keys1: seq<Arg>)
    requires Starts(format) && TakeMember(es, format, keys) == Taken(more, rest, keys1)
    ensures TakeMembers(es, format, keys, outs) == TakeMembers(es, rest, keys1, outs + more)
  {}

  lemma MembersEnd(es: seq<Entry>, rest: string, keys: seq<Arg>, outs: seq<Arg>)
    ensures TakeMembers(es, "*}" + rest, keys, outs) == Taken(outs, rest, keys)
  {
    assert ("*}" + rest)[1..] == ['}'] + rest;
    assert ("*}" + rest)[2..] == rest;
  }

  /** The members from the i-th on, out of all the entries of the struct. */
  lemma {:induction false} MembersTake(ms: seq<MemberCall>, i: nat, rest: string, keys: seq<Arg>, outs: seq<Arg>)
    requires i <= |ms| && AllMembersOk(ms) && AllMembersReadable(ms) && KeysDistinct(Entries(ms))
    ensures TakeMembers(Entries(ms), TakeMembersFormat(ms[i..]) + ("*}" + rest), MembersKeys(ms[i..]) + keys, outs)
         == Taken(outs + MembersValues(ms[i..]), rest, keys)
    decreases ms, |ms| - i
  {
    var close := "*}" + rest;
    if i == |ms| {
      NothingBefore(close);
      assert [] + keys == keys && outs + [] == outs;
      MembersEnd(Entries(ms), rest, keys, outs);
    } else {
      var m := ms[i];
      var tail, keys1 := TakeMembersFormat(ms[i + 1..]) + close, MembersKeys(ms[i + 1..]) + keys;
      assert ms[i..][0] == m && ms[i..][1..] == ms[i + 1..];
      EntriesAt(ms);
      FindEntryAt(Entries(ms), i);
      MemberTakes(m, Entries(ms), tail, keys1);
      MembersTake(ms, i + 1, rest, keys, outs + MemberValues(m));
      ConcatAssociative(TakeMemberFormat(m), TakeMembersFormat(ms[i + 1..]), close);
      ConcatAssociative(MemberKeys(m), MembersKeys(ms[i + 1..]), keys);
      ConcatAssociative(outs, MemberValues(m), MembersValues(ms[i + 1..]));
      MembersStep(Entries(ms), TakeMembersFormat(ms[i..]) + close, MembersKeys(ms[i..]) + keys, outs,
        MemberValues(m), tail, keys1);
    }
  }

  lemma {:induction false} MemberTakes(m: MemberCall, es: seq<Entry>, tail: string, keys: seq<Arg>)
    requires MemberOk(m) && ReadableMember(m) && Find(es, KeyText(m)) == Some(Meaning(m.value))
    ensures TakeMember(es, TakeMemberFormat(m) + tail, MemberKeys(m) + keys) == Taken(MemberValues(m), tail, keys)
    ensures Starts(TakeMemberFormat(m) + tail)
    decreases m, 0
  {
    var afterValue := [','] + tail;
    var afterKey := [':'] + (TakeFormat(m.value) + afterValue);
    SkipOne(',', tail);
    SkipOne(':', TakeFormat(m.value) + afterValue);
    KeyBuilds(m, afterKey, KeyArgs(m.value) + keys);
    Takes(m.value, afterValue, keys);
    MemberSpelled(KeyFormat(m), TakeFormat(m.value), tail);
    StartsThen(KeyFormat(m), afterKey);
    ConcatAssociative([m.key], KeyArgs(m.value), keys);
  }

  lemma MemberSpelled(key: string, value: string, tail: string)
    ensures (key + ":" + value + ",") + tail == key + ([':'] + (value + ([','] + tail)))
  {}

  /**
    For every nested format and matching arguments, building and then taking apart returns the arguments
    in order, and both cursors end where the format ends.
  */
  lemma RoundTrip(c: Call)
    requires WellFormed(c)
    ensures BuildValue(BuildFormat(c), AllArgs(c)) == Built(Meaning(c), "", [])
    ensures Readable(c) ==> Take(Meaning(c), TakeFormat(c), KeyArgs(c)) == Taken(ValueArgs(c), "", [])
  {
    Builds(c, "", []);
    if Readable(c) {
      Takes(c, "", []);
    }
    assert BuildFormat(c) + "" == BuildFormat(c) && AllArgs(c) + [] == AllArgs(c);
    assert TakeFormat(c) + "" == TakeFormat(c) && KeyArgs(c) + [] == KeyArgs(c);
  }

  /** Without a number sign a text is a C string: a NUL inside cannot be taken out again. */
  lemma NulIsRefused(text: seq<byte>, rest: string, keys: seq<Arg>)
    requires NoHash(rest)
    ensures Take(Atom(String(text)), "s" + rest, keys)
         == if HasNul(text) then Failed(TypeError) else Taken([TextArg(text)], rest, keys)
    ensures Take(Atom(String(text)), "s#" + rest, keys) == Taken([BytesArg(text)], rest, keys)
  {
    SpelledThen('s', TextArg(text), rest);
    SpelledThen('s', BytesArg(text), rest);
  }
}
