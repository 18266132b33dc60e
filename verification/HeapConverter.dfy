/**
  The converter as it runs: it allocates values, shares them with the containers it fills, and drops its
  own references, on success and on every fault.
*/
module HeapConverter {
  import opened Bytes
  import opened Outcomes
  import opened Values
  import opened XmlTree
  import opened HeapState
  import opened ValueHeap
  import opened Denotation
  import opened Serializer
  import opened Converter
  import B64 = Base64
  import Utf8 = Utf8Codec

  /** Every value of `cells` is still there with the same contents. */
  ghost predicate Kept(cells: Cells, later: Cells) {
    forall a :: a in cells ==> a in later && later[a].content == cells[a].content
  }

  ghost predicate Settled(s: State) {
    Consistent(s) && s.dying == {}
  }

  /** Values that are reachable from references still held stay, whatever was allocated and freed. */
  lemma KeptWhileHeld(s: State, s': State)
    requires Settled(s) && Settled(s') && SameContents(s.cells, s'.cells)
    requires forall r :: s.held[r] > 0 ==> s'.held[r] > 0
    ensures Kept(s.cells, s'.cells)
  {
    forall a | a in s.cells
      ensures a in s'.cells
    {
      LiveIsHeld(s, a);
      var r :| s.held[r] > 0 && Reaches(s.cells, r, a);
      var p :| PathBetween(s.cells, p, r, a);
      assert Balanced(s', r);
      PathCarriesOver(s, s', p);
    }
  }

  /** A live container keeps everything that it stands for alive. */
  lemma {:induction false} DenotesWhileLive(s: State, s': State, lo: Addr, a: Addr, v: Value)
    requires Denotes(s.cells, lo, a, v) && Settled(s') && a in s'.cells
    requires forall x :: x in s.cells && x in s'.cells && lo <= x ==> s'.cells[x].content == s.cells[x].content
    ensures Denotes(s'.cells, lo, a, v)
    decreases v
  {
    match v {
      case Atom(_) =>
      case ArrayOf(vs) =>
        var items := s.cells[a].content.items;
        forall i | 0 <= i < |vs|
          ensures Denotes(s'.cells, lo, items[i], vs[i])
        {
          ChildIsLive(s', a, items[i]);
          DenotesWhileLive(s, s', lo, items[i], vs[i]);
        }
      case StructOf(es) =>
        var ms := s.cells[a].content.members;
        forall i | 0 <= i < |es|
          ensures MemberDenotes(s'.cells, lo, ms[i], es[i])
        {
          assert MemberDenotes(s.cells, lo, ms[i], es[i]);
          MemberDenotesWhileLive(s, s', lo, a, i, es[i]);
        }
    }
  }

  lemma {:induction false} MemberDenotesWhileLive(s: State, s': State, lo: Addr, a: Addr, i: nat, e: Entry)
    requires Settled(s') && a in s'.cells && s'.cells[a].content.Struct? && i < |s'.cells[a].content.members|
    requires MemberDenotes(s.cells, lo, s'.cells[a].content.members[i], e)
    requires forall x :: x in s.cells && x in s'.cells && lo <= x ==> s'.cells[x].content == s.cells[x].content
    ensures MemberDenotes(s'.cells, lo, s'.cells[a].content.members[i], e)
    decreases e
  {
    var ms := s'.cells[a].content.members;
    MemberRefsHas(ms, i);
    ChildIsLive(s', a, ms[i].key);
    ChildIsLive(s', a, ms[i].value);
    DenotesWhileLive(s, s', lo, ms[i].value, e.value);
  }

  /** What a container shares with somebody outside is not freed when the latter lets go. */
  lemma SharedSurvives(s: State, x: Addr, c: Addr)
    requires Settled(s) && x in s.cells && c in Children(s.cells[x].content) && s.held[c] > 0
    ensures c in s.cells && s.cells[c].refs > 1
  {
    assert Balanced(s, c);
    OccurrencesInclude(s.cells, s.dying, s.next, x, c);
  }

  /** The one new outside reference is to the result, and nothing that existed before has changed. */
  ghost predicate Produced(before: State, after: State, r: Addr, v: Value) {
    && after.held == before.held + multiset{r} && before.next <= after.next
    && Kept(before.cells, after.cells) && Denotes(after.cells, before.next, r, v)
  }

  /** Nothing that existed before was written, and the outside references are back: nothing leaked. */
  lemma Undone(start: State, s: State, s': State)
    requires Settled(start) && Settled(s') && Kept(start.cells, s.cells) && Shrunk(s.cells, s'.cells)
    requires s'.held == start.held
    ensures s'.cells == start.cells
  {
    Determined(start, s');
  }

  /** A new value that its creator holds. */
  method NewScalar(h: Heap, s: Scalar) returns (v: Addr)
    requires h.Valid()
    modifies h
    ensures h.Valid() && Produced(old(h.Ledger()), h.Ledger(), v, Atom(s)) && old(h.next) < h.next
  {
    v := h.Create(Leaf(s));
  }

  // ----- arrays -----

  ghost predicate ItemsDenote(cells: Cells, lo: Addr, items: seq<Addr>, vs: seq<Value>) {
    |items| == |vs| && forall i :: 0 <= i < |vs| ==> Denotes(cells, lo, items[i], vs[i])
  }

  /** The array at `x`, allocated since `start`, holds the values in `done`. */
  ghost predicate FillingArray(start: State, s: State, x: Addr, done: seq<Value>) {
    && Settled(s) && x == start.next < s.next && x !in start.cells && Kept(start.cells, s.cells)
    && s.held == start.held + multiset{x}
    && x in s.cells && s.cells[x].content.Array?
    && ItemsDenote(s.cells, x + 1, s.cells[x].content.items, done)
  }

  lemma ArrayStarted(start: State, s: State, x: Addr)
    requires Settled(start) && Settled(s) && x == start.next && s.next == x + 1 && s.held == start.held + multiset{x}
    requires s.cells == start.cells[x := Cell(1, Array([]))] && x !in start.cells
    ensures FillingArray(start, s, x, [])
  {}

  lemma ItemConverted(start: State, s: State, x: Addr, done: seq<Value>, s1: State, item: Addr, v: Value)
    requires FillingArray(start, s, x, done) && Settled(s1) && Produced(s, s1, item, v)
    ensures x in s1.cells && item in s1.cells && s1.cells[x].content == s.cells[x].content
    ensures !Reaches(s1.cells, item, x)
  {
    DenotesApart(s1.cells, s.next, item, v, x);
  }

  /** Appending writes only the array, and letting the item go frees nothing. */
  lemma ItemAdded(start: State, s: State, x: Addr, done: seq<Value>, s1: State, item: Addr, v: Value, s2: State,
                  s3: State)
    requires FillingArray(start, s, x, done) && Settled(s1) && Produced(s, s1, item, v)
    requires x in s1.cells && s1.cells[x].content.Array?
    requires s2.held == s1.held
    requires ContentsOf(s2.cells) == ContentsOf(s1.cells)[x := Array(s1.cells[x].content.items + [item])]
    requires Settled(s3) && s3.held == s2.held - multiset{item} && s3.next >= s1.next
    requires Shrunk(s2.cells, s3.cells) && s3.cells.Keys == s2.cells.Keys
    ensures FillingArray(start, s3, x, done + [v])
  {
    OneReturned(s.held, item);
    var c, c1, c3 := s.cells, s1.cells, s3.cells;
    assert c1[x].content == c[x].content;
    ItemInCells(start.cells, c, x, done, c1, s.next, item, v, s2.cells, c3);
    hide Settled, Kept, Denotes, ItemsDenote, ContentsOf, Shrunk;
  }

  lemma ItemInCells(c0: Cells, c: Cells, x: Addr, done: seq<Value>, c1: Cells, lo: Addr, item: Addr, v: Value,
                    c2: Cells, c3: Cells)
    requires x !in c0 && x in c && c[x].content.Array? && ItemsDenote(c, x + 1, c[x].content.items, done)
    requires Kept(c0, c) && Kept(c, c1) && x < lo && Denotes(c1, lo, item, v)
    requires x in c1 && ContentsOf(c2) == ContentsOf(c1)[x := Array(c[x].content.items + [item])]
    requires Shrunk(c2, c3) && c3.Keys == c2.Keys
    ensures x in c3 && c3[x].content == Array(c[x].content.items + [item]) && Kept(c0, c3)
    ensures ItemsDenote(c3, x + 1, c3[x].content.items, done + [v])
  {
    var items := c[x].content.items;
    ArrayWritten(c1, x, Array(items + [item]), c2, c3);
    KeptBut(c0, c, c1, c3, x);
    hide Kept, ItemsDenote, Denotes, ContentsOf, Shrunk;
    MoreItems(c, x, items, done, c1, lo, item, v, c3);
  }

  /** All but what was allocated since `c0` was left alone. */
  lemma KeptBut(c0: Cells, c: Cells, c1: Cells, c3: Cells, x: Addr)
    requires Kept(c0, c) && Kept(c, c1) && forall a :: a in c1 && a != x ==> a in c3 && c3[a].content == c1[a].content
    ensures forall a :: a in c && a != x ==> a in c3 && c3[a].content == c[a].content
    ensures x !in c0 ==> Kept(c0, c3)
  {}

  lemma MoreItems(c: Cells, x: Addr, items: seq<Addr>, done: seq<Value>, c1: Cells, lo: Addr, item: Addr,
                  v: Value, c3: Cells)
    requires ItemsDenote(c, x + 1, items, done) && Denotes(c1, lo, item, v) && lo > x
    requires forall a :: a in c && a != x ==> a in c3 && c3[a].content == c[a].content
    requires forall a :: a in c1 && a != x ==> a in c3 && c3[a].content == c1[a].content
    ensures ItemsDenote(c3, x + 1, items + [item], done + [v])
  {
    forall i | 0 <= i < |done|
      ensures Denotes(c3, x + 1, items[i], done[i])
    {
      DenotesKept(c, x + 1, items[i], done[i], c3, x + 1);
    }
    DenotesKept(c1, lo, item, v, c3, x + 1);
  }

  lemma ArrayWritten(c1: Cells, x: Addr, c: Content, c2: Cells, c3: Cells)
    requires x in c1 && ContentsOf(c2) == ContentsOf(c1)[x := c] && Shrunk(c2, c3) && c3.Keys == c2.Keys
    ensures x in c3 && c3[x].content == c
    ensures forall a :: a in c1 && a != x ==> a in c3 && c3[a].content == c1[a].content
  {
    assert x in ContentsOf(c2);
    forall a | a in c1 && a != x
      ensures a in c3 && c3[a].content == c1[a].content
    {
      assert a in ContentsOf(c2) && ContentsOf(c2)[a] == ContentsOf(c1)[a];
    }
  }

  lemma ItemShared(s2: State, x: Addr, items: seq<Addr>, item: Addr)
    requires Settled(s2) && x in s2.cells && s2.cells[x].content == Array(items + [item]) && s2.held[item] > 0
    ensures item in s2.cells && s2.cells[item].refs > 1
  {
    assert (items + [item])[|items|] == item;
    SharedSurvives(s2, x, item);
  }

  // ----- structs -----

  ghost predicate MembersDenote(cells: Cells, lo: Addr, ms: seq<Member>, es: seq<Entry>) {
    |ms| == |es| && forall i :: 0 <= i < |es| ==> MemberDenotes(cells, lo, ms[i], es[i])
  }

  ghost predicate FillingStruct(start: State, s: State, x: Addr, done: seq<Entry>) {
    && Settled(s) && x == start.next < s.next && x !in start.cells && Kept(start.cells, s.cells)
    && s.held == start.held + multiset{x}
    && x in s.cells && s.cells[x].content.Struct?
    && MembersDenote(s.cells, x + 1, s.cells[x].content.members, done)
  }

  lemma StructStarted(start: State, s: State, x: Addr)
    requires Settled(start) && Settled(s) && x == start.next && s.next == x + 1 && s.held == start.held + multiset{x}
    requires s.cells == start.cells[x := Cell(1, Struct([]))] && x !in start.cells
    ensures FillingStruct(start, s, x, [])
  {}

  lemma {:induction false} SetEntryAt(es: seq<Entry>, i: nat, key: seq<byte>, v: Value)
    requires i < |es| && es[i].key == key && forall j :: 0 <= j < i ==> es[j].key != key
    ensures SetEntry(es, key, v) == es[i := Entry(key, v)]
  {
    if i > 0 {
      assert forall j :: 0 <= j < i - 1 ==> es[1..][j] == es[j + 1];
      SetEntryAt(es[1..], i - 1, key, v);
      assert es[i := Entry(key, v)] == [es[0]] + es[1..][i - 1 := Entry(key, v)];
    } else {
      assert es[0 := Entry(key, v)] == [Entry(key, v)] + es[1..];
    }
  }

  /** Setting a member of the stored struct sets the entry of the value it stands for. */
  lemma MemberSetDenotes(cells: Cells, lo: Addr, ms: seq<Member>, es: seq<Entry>, k: Addr, value: Addr, v: Value)
    requires MembersOk(cells, ms) && MembersDenote(cells, lo, ms, es)
    requires lo <= k && IsText(cells, k) && Denotes(cells, lo, value, v)
    ensures MembersDenote(cells, lo, WithMember(cells, ms, k, value), SetEntry(es, TextAt(cells, k), v))
  {
    var key := TextAt(cells, k);
    var i := Position(cells, ms, key);
    assert forall j :: 0 <= j < |es| ==>
        MemberDenotes(cells, lo, ms[j], es[j]) && es[j].key == TextAt(cells, ms[j].key);
    if i < |ms| {
      SetEntryAt(es, i, key, v);
    } else {
      SetEntryNew(es, key, v);
    }
  }

  lemma MembersKept(cells: Cells, lo: Addr, ms: seq<Member>, es: seq<Entry>, cells': Cells)
    requires MembersDenote(cells, lo, ms, es)
    requires forall x :: x in cells && lo <= x ==> x in cells' && cells'[x].content == cells[x].content
    ensures MembersDenote(cells', lo, ms, es)
  {
    forall i | 0 <= i < |es|
      ensures MemberDenotes(cells', lo, ms[i], es[i])
    {
      DenotesKept(cells, lo, ms[i].value, es[i].value, cells', lo);
    }
  }

  /** Once the member is set and the converter has let go of the key and the value. */
  lemma MemberAddedToStruct(start: State, s: State, x: Addr, done: seq<Entry>, s2: State, k: Addr, value: Addr,
                            v: Value, s3: State, s5: State)
    requires Settled(start) && FillingStruct(start, s, x, done) && Kept(s.cells, s2.cells)
    requires x < k && IsText(s2.cells, k) && Denotes(s2.cells, x + 1, value, v)
    requires IsMemberSet(s2.cells, x, k, value, s3.cells) && Shrunk(s3.cells, s5.cells)
    requires Settled(s5) && s5.held == start.held + multiset{x} && s5.next > x
    ensures FillingStruct(start, s5, x, SetEntry(done, TextAt(s2.cells, k), v))
  {
    var ms := s.cells[x].content.members;
    MembersKept(s.cells, x + 1, ms, done, s2.cells);
    MemberSetDenotes(s2.cells, x + 1, ms, done, k, value, v);
    HeldIsLive(s5, x);
    var after, es := WithMember(s2.cells, ms, k, value), SetEntry(done, TextAt(s2.cells, k), v);
    forall i | 0 <= i < |es|
      ensures MemberDenotes(s5.cells, x + 1, after[i], es[i])
    {
      MemberDenotesWhileLive(s2, s5, x + 1, x, i, es[i]);
    }
    KeptWhileHeld(start, s5);
  }

  // ----- the converter -----

  method GetChildByName(parent: Elem, name: string) returns (r: Option<Elem>)
    ensures r == ChildNamed(parent.children, name)
  {
    var children := parent.children;
    assert children[0..] == children;
    for i := 0 to |children|
      invariant ChildNamed(children, name) == ChildNamed(children[i..], name)
    {
      assert children[i..][1..] == children[i + 1..];
      if children[i].name == name {
        return Some(children[i]);
      }
    }
    r := None;
  }

  /** On a fault nothing has changed; otherwise the one new outside reference is to the result. */
  ghost predicate Outcome(before: State, after: State, r: Result<Addr, Fault>, spec: Result<Value, Fault>) {
    && Settled(after) && before.next <= after.next
    && match r
       case Err(f) => spec == Err(f) && after.cells == before.cells && after.held == before.held
       case Ok(a) => spec.Ok? && Produced(before, after, a, spec.value)
  }

  method ConvertValue(h: Heap, maxRecursion: nat, e: Elem, floats: Floats) returns (r: Result<Addr, Fault>)
    requires h.Valid()
    modifies h
    ensures h.Valid() && Outcome(old(h.Ledger()), h.Ledger(), r, Convert(e, maxRecursion, floats))
    decreases e, 1
  {
    if maxRecursion < 1 || e.name != "value" {
      return Err(ParseError);
    }
    if |e.children| == 0 {
      r := StoreScalar(h, MakeString(e.cdata));
      return;
    }
    if |e.children| != 1 {
      return Err(ParseError);
    }
    var child := e.children[0];
    if child.name == "struct" {
      r := ConvertStruct(h, maxRecursion, child, floats);
    } else if child.name == "array" {
      if |child.children| != 1 {
        return Err(ParseError);
      }
      r := ConvertArray(h, maxRecursion, child, floats);
    } else {
      if |child.children| != 0 {
        return Err(ParseError);
      }
      r := StoreScalar(h, ConvertScalar(child.name, child.cdata, floats));
    }
  }

  method StoreScalar(h: Heap, s: Result<Scalar, Fault>) returns (r: Result<Addr, Fault>)
    requires h.Valid()
    modifies h
    ensures h.Valid() && Outcome(old(h.Ledger()), h.Ledger(), r, Plainly(s))
  {
    match s {
      case Err(f) => r := Err(f);
      case Ok(scalar) =>
        var v := NewScalar(h, scalar);
        r := Ok(v);
    }
  }

  function ArraySpec(e: Elem, maxRecursion: nat, floats: Floats): Result<Value, Fault>
    requires maxRecursion >= 1
  {
    if |e.children| != 1 || e.children[0].name != "data" then Err(ParseError)
    else AsArray(ConvertItems(e.children[0].children, maxRecursion, floats))
  }

  method ConvertArray(h: Heap, maxRecursion: nat, e: Elem, floats: Floats) returns (r: Result<Addr, Fault>)
    requires h.Valid() && maxRecursion >= 1
    modifies h
    ensures h.Valid() && Outcome(old(h.Ledger()), h.Ledger(), r, ArraySpec(e, maxRecursion, floats))
    decreases e, 0
  {
    hide Consistent;
    ghost var start := h.Ledger();
    var x := h.Create(Array([]));
    ArrayStarted(start, h.Ledger(), x);
    if |e.children| != 1 || e.children[0].name != "data" {
      AbandonArray(h, start, x, []);
      return Err(ParseError);
    }
    var values := e.children[0].children;
    ghost var done: seq<Value> := [];
    assert values[0..] == values;
    PrependedNone(ConvertItems(values, maxRecursion, floats));
    for i := 0 to |values|
      invariant h.Valid() && FillingArray(start, h.Ledger(), x, done)
      invariant ConvertItems(values, maxRecursion, floats)
           == AllPrepended(done, ConvertItems(values[i..], maxRecursion, floats))
    {
      ghost var s := h.Ledger();
      assert values[i..][1..] == values[i + 1..];
      var item := ConvertValue(h, maxRecursion - 1, values[i], floats);
      if item.Err? {
        SameCellsStillFilling(start, s, h.Ledger(), x, done);
        AbandonArray(h, start, x, done);
        return Err(item.error);
      }
      ghost var v := Convert(values[i], maxRecursion - 1, floats).value;
      AppendAndRelease(h, start, s, x, done, item.value, v);
      PrependedMore(done, v, ConvertItems(values[i + 1..], maxRecursion, floats));
      done := done + [v];
    }
    ArrayFilled(start, h.Ledger(), x, done);
    r := Ok(x);
  }

  function AllPrepended(done: seq<Value>, r: Result<seq<Value>, Fault>): Result<seq<Value>, Fault> {
    match r
    case Ok(vs) => Ok(done + vs)
    case Err(f) => Err(f)
  }

  lemma PrependedNone(r: Result<seq<Value>, Fault>)
    ensures AllPrepended([], r) == r
  {
    if r.Ok? {
      assert [] + r.value == r.value;
    }
  }

  lemma PrependedMore(done: seq<Value>, v: Value, r: Result<seq<Value>, Fault>)
    ensures AllPrepended(done, Prepended(v, r)) == AllPrepended(done + [v], r)
  {
    if r.Ok? {
      assert done + ([v] + r.value) == done + [v] + r.value;
    }
  }

  lemma SameCellsStillFilling(start: State, s: State, s': State, x: Addr, done: seq<Value>)
    requires FillingArray(start, s, x, done) && Settled(s') && s'.cells == s.cells && s'.held == s.held
    requires s.next <= s'.next
    ensures FillingArray(start, s', x, done)
  {}

  lemma ArrayFilled(start: State, s: State, x: Addr, done: seq<Value>)
    requires FillingArray(start, s, x, done)
    ensures Produced(start, s, x, ArrayOf(done))
  {
    var items := s.cells[x].content.items;
    forall i | 0 <= i < |done|
      ensures Denotes(s.cells, x, items[i], done[i])
    {
      DenotesKept(s.cells, x + 1, items[i], done[i], s.cells, x);
    }
  }

  /** A fault while an array is being filled: dropping it frees it and all that it owns. */
  method AbandonArray(h: Heap, ghost start: State, x: Addr, ghost done: seq<Value>)
    requires h.Valid() && Settled(start) && FillingArray(start, h.Ledger(), x, done)
    modifies h
    ensures h.Valid() && h.cells == start.cells && h.held == start.held && h.next == old(h.next)
  {
    hide Consistent;
    ghost var s := h.Ledger();
    h.DecRef(x);
    OneReturned(start.held, x);
    Undone(start, s, h.Ledger());
  }

  lemma OneReturned(held: multiset<Addr>, x: Addr)
    ensures (held + multiset{x})[x] > 0 && held + multiset{x} - multiset{x} == held
  {}

  /** The array takes its share of the item and the converter gives up its own. */
  method AppendAndRelease(h: Heap, ghost start: State, ghost s: State, x: Addr, ghost done: seq<Value>,
                          item: Addr, ghost v: Value)
    requires h.Valid() && FillingArray(start, s, x, done) && Produced(s, h.Ledger(), item, v)
    modifies h
    ensures h.Valid() && FillingArray(start, h.Ledger(), x, done + [v])
  {
    hide Consistent;
    ghost var s1 := h.Ledger();
    ItemConverted(start, s, x, done, s1, item, v);
    var fault := h.ArrayAppendItem(x, item);
    ghost var s2 := h.Ledger();
    WrittenArray(s1.cells, x, s1.cells[x].content.items + [item], s2.cells);
    OneReturned(s.held, item);
    ItemShared(s2, x, s1.cells[x].content.items, item);
    h.DecRef(item);
    ItemAdded(start, s, x, done, s1, item, v, s2, h.Ledger());
  }

  lemma WrittenArray(c1: Cells, x: Addr, items: seq<Addr>, c2: Cells)
    requires x in c1 && ContentsOf(c2) == ContentsOf(c1)[x := Array(items)]
    ensures x in c2 && c2[x].content == Array(items)
  {
    assert x in ContentsOf(c2);
  }

  function StructSpec(e: Elem, maxRecursion: nat, floats: Floats): Result<Value, Fault>
    requires maxRecursion >= 1
  {
    AsStruct(ConvertMembers(e.children, maxRecursion, [], floats))
  }

  function MemberSpec(m: Elem, maxRecursion: nat, floats: Floats): Result<Entry, Fault>
    requires maxRecursion >= 1
  {
    match MemberParts(m)
    case Err(f) => Err(f)
    case Ok((key, value)) =>
      match Convert(value, maxRecursion - 1, floats)
      case Err(f) => Err(f)
      case Ok(v) => Ok(Entry(key, v))
  }

  lemma MembersStep(ms: seq<Elem>, maxRecursion: nat, es: seq<Entry>, floats: Floats)
    requires maxRecursion >= 1 && ms != []
    ensures var first := MemberSpec(ms[0], maxRecursion, floats);
            ConvertMembers(ms, maxRecursion, es, floats)
            == if first.Err? then Err(first.error)
               else ConvertMembers(ms[1..], maxRecursion, SetEntry(es, first.value.key, first.value.value), floats)
  {}

  method ConvertStruct(h: Heap, maxRecursion: nat, e: Elem, floats: Floats) returns (r: Result<Addr, Fault>)
    requires h.Valid() && maxRecursion >= 1
    modifies h
    ensures h.Valid() && Outcome(old(h.Ledger()), h.Ledger(), r, StructSpec(e, maxRecursion, floats))
    decreases e, 0
  {
    hide Consistent;
    ghost var start := h.Ledger();
    var x := h.Create(Struct([]));
    StructStarted(start, h.Ledger(), x);
    var members := e.children;
    ghost var done: seq<Entry> := [];
    assert members[0..] == members;
    for i := 0 to |members|
      invariant h.Valid() && FillingStruct(start, h.Ledger(), x, done)
      invariant ConvertMembers(members, maxRecursion, [], floats)
           == ConvertMembers(members[i..], maxRecursion, done, floats)
    {
      assert members[i..][1..] == members[i + 1..];
      MembersStep(members[i..], maxRecursion, done, floats);
      var fault := ConvertMember(h, maxRecursion, members[i], floats, start, x, done);
      if fault.Some? {
        AbandonStruct(h, start, x, done);
        return Err(fault.value);
      }
      ghost var entry := MemberSpec(members[i], maxRecursion, floats).value;
      done := SetEntry(done, entry.key, entry.value);
    }
    StructFilled(start, h.Ledger(), x, done);
    r := Ok(x);
  }

  method AbandonStruct(h: Heap, ghost start: State, x: Addr, ghost done: seq<Entry>)
    requires h.Valid() && Settled(start) && FillingStruct(start, h.Ledger(), x, done)
    modifies h
    ensures h.Valid() && h.cells == start.cells && h.held == start.held && h.next == old(h.next)
  {
    hide Consistent;
    ghost var s := h.Ledger();
    h.DecRef(x);
    OneReturned(start.held, x);
    Undone(start, s, h.Ledger());
  }

  lemma StructFilled(start: State, s: State, x: Addr, done: seq<Entry>)
    requires FillingStruct(start, s, x, done)
    ensures Produced(start, s, x, StructOf(done))
  {
    var ms := s.cells[x].content.members;
    forall i | 0 <= i < |done|
      ensures MemberDenotes(s.cells, x, ms[i], done[i])
    {
      DenotesKept(s.cells, x + 1, ms[i].value, done[i].value, s.cells, x);
    }
  }

  /** One member: a fault leaves the struct as it was and the key, if it was made, is gone again. */
  method ConvertMember(h: Heap, maxRecursion: nat, m: Elem, floats: Floats, ghost start: State, x: Addr,
                       ghost done: seq<Entry>)
    returns (fault: Option<Fault>)
    requires h.Valid() && maxRecursion >= 1 && Settled(start) && FillingStruct(start, h.Ledger(), x, done)
    modifies h
    ensures h.Valid()
    ensures match fault
            case Some(f) => MemberSpec(m, maxRecursion, floats) == Err(f) && FillingStruct(start, h.Ledger(), x, done)
            case None =>
              var entry := MemberSpec(m, maxRecursion, floats);
              entry.Ok? && FillingStruct(start, h.Ledger(), x, SetEntry(done, entry.value.key, entry.value.value))
    decreases m, 0
  {
    hide Consistent, FillingStruct, Produced, Outcome, Utf8.Valid, ChildNamed, Convert;
    if m.name != "member" || |m.children| != 2 {
      return Some(ParseError);
    }
    var name := GetChildByName(m, "name");
    if name.None? || |name.value.children| != 0 {
      return Some(ParseError);
    }
    var text := MakeString(name.value.cdata);
    if text.Err? {
      return Some(text.error);
    }
    ghost var s := h.Ledger();
    var key := NewScalar(h, text.value);
    ghost var s1 := h.Ledger();
    var valueElem := GetChildByName(m, "value");
    if valueElem.None? {
      DropKey(h, start, s, x, done, key, text.value);
      return Some(ParseError);
    }
    MemberValueSmaller(m);
    var value := ConvertValue(h, maxRecursion - 1, valueElem.value, floats);
    ghost var spec := Convert(valueElem.value, maxRecursion - 1, floats);
    if value.Err? {
      StillProduced(s, s1, key, Atom(text.value), h.Ledger(), value, spec);
      DropKey(h, start, s, x, done, key, text.value);
      return Some(value.error);
    }
    OutcomeOk(s1, h.Ledger(), value.value, spec);
    SetAndRelease(h, start, s, x, done, s1, key, text.value.text, value.value, spec.value);
    fault := None;
  }

  lemma OutcomeOk(s: State, s': State, a: Addr, spec: Result<Value, Fault>)
    requires Outcome(s, s', Ok(a), spec)
    ensures spec.Ok? && Produced(s, s', a, spec.value)
  {}

  lemma StillProduced(s: State, s1: State, key: Addr, v: Value, s': State, r: Result<Addr, Fault>,
                      spec: Result<Value, Fault>)
    requires Produced(s, s1, key, v) && r.Err? && Outcome(s1, s', r, spec)
    ensures Produced(s, s', key, v) && spec == Err(r.error)
  {}

  method DropKey(h: Heap, ghost start: State, ghost s: State, x: Addr, ghost done: seq<Entry>, key: Addr,
                 ghost text: Scalar)
    requires h.Valid() && FillingStruct(start, s, x, done) && Produced(s, h.Ledger(), key, Atom(text))
    modifies h
    ensures h.Valid() && FillingStruct(start, h.Ledger(), x, done)
  {
    hide Consistent;
    ghost var s1 := h.Ledger();
    OneReturned(s.held, key);
    h.DecRef(key);
    Undone(s, s1, h.Ledger());
  }

  /** What holds of the heap when a member's key and value have both been made. */
  lemma PartsReady(start: State, s: State, x: Addr, done: seq<Entry>, s1: State, key: Addr, text: seq<byte>,
                   s2: State, value: Addr, v: Value)
    requires Settled(start) && FillingStruct(start, s, x, done) && Settled(s1) && Settled(s2)
    requires Produced(s, s1, key, Atom(String(text))) && Produced(s1, s2, value, v) && s.next < s1.next
    ensures Kept(s.cells, s2.cells) && x in s2.cells && s2.cells[x].content.Struct?
    ensures x < key && IsText(s2.cells, key) && TextAt(s2.cells, key) == text
    ensures value in s2.cells && !Reaches(s2.cells, value, x) && Denotes(s2.cells, x + 1, value, v)
    ensures s2.held == s.held + multiset{key} + multiset{value} && s.held == start.held + multiset{x} && x < s2.next
  {
    DenotesApart(s2.cells, s1.next, value, v, x);
    DenotesKept(s2.cells, s1.next, value, v, s2.cells, x + 1);
  }

  method SetAndRelease(h: Heap, ghost start: State, ghost s: State, x: Addr, ghost done: seq<Entry>, ghost s1: State,
                       key: Addr, ghost text: seq<byte>, value: Addr, ghost v: Value)
    requires h.Valid() && Settled(start) && FillingStruct(start, s, x, done) && Settled(s1)
    requires Produced(s, s1, key, Atom(String(text))) && Produced(s1, h.Ledger(), value, v) && s.next < s1.next
    modifies h
    ensures h.Valid() && FillingStruct(start, h.Ledger(), x, SetEntry(done, text, v))
  {
    hide Consistent, FillingStruct, Produced, Kept, Denotes, Reaches, IsMemberSet, Shrunk;
    ghost var s2 := h.Ledger();
    PartsReady(start, s, x, done, s1, key, text, s2, value, v);
    var fault := h.StructSetValue(x, key, value);
    ghost var s3 := h.Ledger();
    TwoReturned(s.held, key, value);
    h.DecRef(key);
    ghost var s4 := h.Ledger();
    h.DecRef(value);
    ReleasedBoth(s3, s4, h.Ledger(), s3.rank(key), s4.rank(value));
    MemberAddedToStruct(start, s, x, done, s2, key, value, v, s3, h.Ledger());
  }

  lemma ReleasedBoth(s3: State, s4: State, s5: State, p: int, q: int)
    requires Collected(s3, s4, p) && Collected(s4, s5, q)
    ensures Shrunk(s3.cells, s5.cells)
  {}

  // ----- parameter lists -----

  function ParamSpec(params: seq<Elem>, maxNest: nat, floats: Floats): Result<seq<Value>, Fault> {
    if params == [] then Ok([])
    else if params[0].name != "param" || |params[0].children| != 1 then Err(ParseError)
    else
      match Convert(params[0].children[0], maxNest, floats)
      case Err(f) => Err(f)
      case Ok(v) => Prepended(v, ParamSpec(params[1..], maxNest, floats))
  }

  /** A params element becomes an array; every parameter has the whole nesting limit to itself. */
  method ConvertParams(h: Heap, maxNest: nat, e: Elem, floats: Floats) returns (r: Result<Addr, Fault>)
    requires h.Valid()
    modifies h
    ensures h.Valid()
    ensures Outcome(old(h.Ledger()), h.Ledger(), r,
                    if e.name != "params" then Err(ParseError) else AsArray(ParamSpec(e.children, maxNest, floats)))
  {
    hide Consistent;
    ghost var start := h.Ledger();
    var x := h.Create(Array([]));
    ArrayStarted(start, h.Ledger(), x);
    if e.name != "params" {
      AbandonArray(h, start, x, []);
      return Err(ParseError);
    }
    var params := e.children;
    ghost var done: seq<Value> := [];
    assert params[0..] == params;
    PrependedNone(ParamSpec(params, maxNest, floats));
    for i := 0 to |params|
      invariant h.Valid() && FillingArray(start, h.Ledger(), x, done)
      invariant ParamSpec(params, maxNest, floats) == AllPrepended(done, ParamSpec(params[i..], maxNest, floats))
    {
      ghost var s := h.Ledger();
      assert params[i..][1..] == params[i + 1..];
      var param := params[i];
      if param.name != "param" || |param.children| != 1 {
        AbandonArray(h, start, x, done);
        return Err(ParseError);
      }
      var item := ConvertValue(h, maxNest, param.children[0], floats);
      if item.Err? {
        SameCellsStillFilling(start, s, h.Ledger(), x, done);
        AbandonArray(h, start, x, done);
        return Err(item.error);
      }
      ghost var v := Convert(param.children[0], maxNest, floats).value;
      AppendAndRelease(h, start, s, x, done, item.value, v);
      PrependedMore(done, v, ParamSpec(params[i + 1..], maxNest, floats));
      done := done + [v];
    }
    ArrayFilled(start, h.Ledger(), x, done);
    r := Ok(x);
  }
}
