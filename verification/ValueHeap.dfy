/** Reference-counted XML-RPC values: creation, sharing, cascading destruction, arrays and structs. */
module ValueHeap {
  import opened Bytes
  import opened Outcomes
  import opened HeapState

  lemma PrefixWithin(xs: seq<Addr>, i: nat)
    requires i < |xs|
    ensures multiset(xs[..i + 1]) == multiset(xs[..i]) + multiset{xs[i]}
    ensures multiset(xs[..i + 1]) <= multiset(xs)
  {
    assert xs[..i + 1] == xs[..i] + [xs[i]];
    assert xs == xs[..i + 1] + xs[i + 1..];
  }

  lemma {:induction false} MemberRefsPrefix(ms: seq<Member>, i: nat)
    requires i <= |ms|
    ensures multiset(MemberRefs(ms[..i])) <= multiset(MemberRefs(ms))
    decreases |ms|
  {
    if i == |ms| {
      assert ms[..i] == ms;
    } else {
      MemberRefsPrefix(ms[..|ms| - 1], i);
      assert ms[..|ms| - 1][..i] == ms[..i];
    }
  }

  lemma MemberRefsNext(ms: seq<Member>, i: nat)
    requires i < |ms|
    ensures multiset(MemberRefs(ms[..i + 1]))
         == multiset(MemberRefs(ms[..i])) + multiset{ms[i].key} + multiset{ms[i].value}
    ensures multiset(MemberRefs(ms[..i + 1])) <= multiset(MemberRefs(ms))
  {
    assert ms[..i + 1][..i] == ms[..i];
    MemberRefsPrefix(ms, i + 1);
  }

  class Heap {
    var cells: Cells
    var next: Addr
    ghost var held: multiset<Addr>
    ghost var dying: set<Addr>
    ghost var rank: Addr -> nat

    ghost function Ledger(): State
      reads this
    {
      State(cells, next, held, dying, rank)
    }

    /** Between operations no value is half destroyed. */
    ghost predicate Valid()
      reads this
    {
      Consistent(Ledger()) && dying == {}
    }

    constructor ()
      ensures Valid() && cells == map[] && held == multiset{}
    {
      cells, next := map[], 0;
      held, dying, rank := multiset{}, {}, (a: Addr) => 0;
      new;
      forall a
        ensures Balanced(Ledger(), a)
      {}
    }

    /** A new value without references to others, with one reference to it, which the caller holds. */
    method Create(c: Content) returns (v: Addr)
      requires Valid() && Children(c) == [] && (c.Struct? ==> c.members == [])
      modifies this
      ensures Valid() && v == old(next) && next == v + 1 && v !in old(cells)
      ensures cells == old(cells)[v := Cell(1, c)]
      ensures held == old(held) + multiset{v} && rank == old(rank)
    {
      ghost var before := Ledger();
      v := next;
      cells := cells[v := Cell(1, c)];
      next := next + 1;
      held := held + multiset{v};
      AllocateConsistent(before, c, Ledger());
    }

    method IncRef(v: Addr)
      requires Consistent(Ledger()) && v in cells && v !in dying
      modifies this
      ensures Consistent(Ledger()) && held == old(held) + multiset{v}
      ensures cells == old(cells)[v := old(cells)[v].(refs := old(cells)[v].refs + 1)]
      ensures ContentsOf(cells) == ContentsOf(old(cells))
      ensures next == old(next) && dying == old(dying) && rank == old(rank)
    {
      ghost var before := Ledger();
      cells := cells[v := cells[v].(refs := cells[v].refs + 1)];
      held := held + multiset{v};
      RetainConsistent(before, v, Ledger());
    }

    /**
      A reference is given up, and the value destroyed if it was the last one.  Nothing that ranks
      higher than the value, and so nothing that contains it, is freed by the cascade.
    */
    method DecRef(v: Addr)
      requires Consistent(Ledger()) && held[v] > 0
      modifies this
      ensures Consistent(Ledger()) && held == old(held) - multiset{v} && dying == old(dying)
      ensures rank == old(rank) && next == old(next)
      ensures Collected(old(Ledger()), Ledger(), rank(v))
      ensures v in old(cells) && (old(cells)[v].refs > 1 ==> cells.Keys == old(cells).Keys)
      decreases cells.Keys - dying, 1
    {
      hide Consistent, Collected, Shrunk, Children, MemberRefs, Draining;
      ghost var before := Ledger();
      HeldIsLive(before, v);
      cells := cells[v := cells[v].(refs := cells[v].refs - 1)];
      held := held - multiset{v};
      if cells[v].refs == 0 {
        held, dying := held + multiset(Children(cells[v].content)), dying + {v};
        ghost var mid := Ledger();
        LastReference(before, v, mid);
        DestroyValue(v);
        CollectedStep(before, mid, Ledger(), rank(v), rank(v));
      } else {
        OtherReferences(before, v, Ledger());
      }
    }

    /** The references that the value owns are released, and then the value is freed. */
    method DestroyValue(v: Addr)
      requires Consistent(Ledger()) && v in dying && v in cells
      requires multiset(Children(cells[v].content)) <= held
      modifies this
      ensures Consistent(Ledger()) && v !in cells && dying == old(dying) - {v}
      ensures rank == old(rank)
      ensures held == old(held) - multiset(Children(old(cells)[v].content))
      ensures Collected(old(Ledger()), Ledger(), rank(v))
      decreases cells.Keys - dying, 4
    {
      hide Consistent, Collected, Shrunk, Children, MemberRefs, Draining;
      ChildrenOf(cells[v].content);
      ghost var start := Ledger();
      match cells[v].content {
        case Array(_) => DestroyArrayContents(v);
        case Struct(_) => DestroyStruct(v);
        case _ => DrainStart(start, v);
      }
      ghost var drained := Ledger();
      Drained(start, drained, v, multiset(Children(start.cells[v].content)));
      cells := cells - {v};
      dying := dying - {v};
      FreeConsistent(drained, v, Ledger());
      FreedOne(start, drained, v, Ledger());
    }

    method DestroyArrayContents(v: Addr)
      requires Consistent(Ledger()) && v in dying && v in cells && cells[v].content.Array?
      requires multiset(cells[v].content.items) <= held
      modifies this
      ensures Draining(old(Ledger()), Ledger(), v, multiset(old(cells)[v].content.items))
      decreases cells.Keys - dying, 3
    {
      hide Consistent, Collected, Shrunk, Children, MemberRefs, Draining;
      var items := cells[v].content.items;
      ghost var start := Ledger();
      ChildrenOf(cells[v].content);
      DrainStart(start, v);
      assert items[..0] == [];
      for i := 0 to |items|
        invariant Draining(start, Ledger(), v, multiset(items[..i]))
      {
        PrefixWithin(items, i);
        ReleaseOwned(start, v, multiset(items[..i]), items[i]);
      }
      assert items[..|items|] == items;
    }

    /** One of the references that the dying value `v` owned is released. */
    method ReleaseOwned(ghost start: State, ghost v: Addr, ghost gone: multiset<Addr>, c: Addr)
      requires Draining(start, Ledger(), v, gone) && v in start.cells && c in Children(start.cells[v].content)
      requires gone + multiset{c} <= start.held
      modifies this
      ensures Draining(start, Ledger(), v, gone + multiset{c})
      decreases start.cells.Keys - start.dying, 2
    {
      hide Consistent, Collected, Shrunk, Children, MemberRefs, Draining;
      ghost var mid := Ledger();
      DrainReady(start, mid, v, gone, c);
      DecRef(c);
      DrainMore(start, mid, Ledger(), v, gone, c);
    }

    method DestroyStruct(v: Addr)
      requires Consistent(Ledger()) && v in dying && v in cells && cells[v].content.Struct?
      requires multiset(MemberRefs(cells[v].content.members)) <= held
      modifies this
      ensures Draining(old(Ledger()), Ledger(), v, multiset(MemberRefs(old(cells)[v].content.members)))
      decreases cells.Keys - dying, 3
    {
      hide Consistent, Collected, Shrunk, Children, MemberRefs, Draining;
      var members := cells[v].content.members;
      ghost var start := Ledger();
      ChildrenOf(cells[v].content);
      DrainStart(start, v);
      NoMemberRefs(members[..0]);
      for i := 0 to |members|
        invariant Draining(start, Ledger(), v, multiset(MemberRefs(members[..i])))
      {
        MemberRefsNext(members, i);
        MemberRefsHas(members, i);
        ghost var gone := multiset(MemberRefs(members[..i]));
        SumMonotone(gone, members[i].key, members[i].value);
        ReleaseOwned(start, v, gone, members[i].key);
        ReleaseOwned(start, v, gone + multiset{members[i].key}, members[i].value);
      }
      assert members[..|members|] == members;
    }

    // ----- arrays -----

    /**
      The caller's references in `gained` pass to container `x`, whose old references in `dropped` pass
      to the caller.
    */
    ghost method Transfer(before: State, x: Addr, c: Content, gained: seq<Addr>, dropped: multiset<Addr>)
      requires Consistent(before) && before.dying == {} && x in before.cells && multiset(gained) <= before.held
      requires cells == before.cells[x := before.cells[x].(content := c)] && held == before.held
      requires next == before.next && dying == {} && rank == before.rank
      requires multiset(Children(c)) + dropped == multiset(Children(before.cells[x].content)) + multiset(gained)
      requires dropped <= multiset(Children(before.cells[x].content))
      requires c.Struct? ==> MembersOk(before.cells, c.members)
      requires !IsString(before.cells[x].content) && forall g :: g in gained ==> !Reaches(before.cells, g, x)
      modifies this`held, this`rank
      ensures Valid() && held == before.held - multiset(gained) + dropped
      ensures rank == Reranked(before.cells, before.rank, x, gained)
    {
      held := held - multiset(gained) + dropped;
      rank := Reranked(before.cells, rank, x, gained);
      GainsBy(before.cells, x, c, gained, dropped, cells);
      AttachRanked(before.cells, before.rank, x, gained, cells);
      TransferConsistent(before, x, c, multiset(gained), dropped, rank, Ledger());
    }

    /** The array shares the item: it gets a reference of its own. */
    method ArrayAppendItem(x: Addr, v: Addr) returns (fault: Option<Fault>)
      requires Valid() && x in cells && v in cells
      requires cells[x].content.Array? ==> !Reaches(cells, v, x)
      modifies this
      ensures Valid() && held == old(held) && next == old(next)
      ensures fault == if old(cells)[x].content.Array? then None else Some(TypeError)
      ensures fault.Some? ==> cells == old(cells)
      ensures fault.None? ==>
        ContentsOf(cells) == ContentsOf(old(cells))[x := Array(old(cells)[x].content.items + [v])]
    {
      if !cells[x].content.Array? {
        return Some(TypeError);
      }
      hide Consistent, Reaches, Shrunk, Reranked, ContentsOf, Children;
      ghost var start := Ledger();
      var items := cells[x].content.items;
      IncRef(v);
      ghost var before := Ledger();
      CollectedReaches(start, before, v, x);
      cells := cells[x := cells[x].(content := Array(items + [v]))];
      ItemAppended(items, v);
      ContentWritten(start.cells, before.cells, x, Array(items + [v]));
      Transfer(before, x, Array(items + [v]), [v], multiset{});
      TakenAndGiven(start.held, [v], multiset{});
      fault := None;
    }

    /** Reading an item gives the caller a reference to it. */
    method ArrayReadItem(x: Addr, index: nat) returns (r: Result<Addr, Fault>)
      requires Valid() && x in cells
      modifies this
      ensures Valid() && next == old(next) && ContentsOf(cells) == ContentsOf(old(cells))
      ensures r.Err? ==> cells == old(cells) && held == old(held)
      ensures r == if !old(cells)[x].content.Array? then Err(TypeError)
                   else if index >= |old(cells)[x].content.items| then Err(IndexError)
                   else Ok(old(cells)[x].content.items[index])
      ensures r.Ok? ==> held == old(held) + multiset{r.value}
    {
      if !cells[x].content.Array? {
        return Err(TypeError);
      }
      if index >= |cells[x].content.items| {
        return Err(IndexError);
      }
      var v := cells[x].content.items[index];
      ChildIsLive(Ledger(), x, v);
      IncRef(v);
      r := Ok(v);
    }

    /** The deprecated accessor only borrows: taking a reference and dropping it changes nothing. */
    method ArrayGetItem(x: Addr, index: int) returns (r: Result<Addr, Fault>)
      requires Valid() && x in cells
      modifies this
      ensures Valid() && cells == old(cells) && held == old(held) && next == old(next)
      ensures r == if index < 0 then Err(IndexError)
                   else if !cells[x].content.Array? then Err(TypeError)
                   else if index >= |cells[x].content.items| then Err(IndexError)
                   else Ok(cells[x].content.items[index])
    {
      if index < 0 {
        return Err(IndexError);
      }
      ghost var start := Ledger();
      hide Consistent, Collected, ContentsOf;
      r := ArrayReadItem(x, index);
      if r.Ok? {
        ghost var mid := Ledger();
        DecRef(r.value);
        Restored(start, mid, Ledger(), rank(r.value));
      }
    }

    // ----- structs -----

    method GetHash(key: seq<byte>) returns (h: nat)
      ensures h == Hash(key)
    {
      h := 0;
      for i := 0 to |key|
        invariant h == Hash(key[..i])
      {
        assert key[..i + 1][..i] == key[..i];
        h := (h + key[i]) % 256;
      }
      assert key[..|key|] == key;
    }

    /** The search that compares keys only where the hashes agree finds what a plain search finds. */
    method FindMember(x: Addr, key: seq<byte>) returns (index: int)
      requires Valid() && x in cells && cells[x].content.Struct?
      ensures MembersOk(cells, cells[x].content.members)
      ensures var i := Position(cells, cells[x].content.members, key);
              index == if i < |cells[x].content.members| then i else -1
    {
      var hash := GetHash(key);
      var members := cells[x].content.members;
      assert MembersOk(cells, members);
      hide Consistent;
      for i := 0 to |members|
        invariant forall j :: 0 <= j < i ==> TextAt(cells, members[j].key) != key
      {
        if members[i].hash == hash {
          if cells[members[i].key].content.scalar.text == key {
            return i;
          }
        }
      }
      index := -1;
    }

    /** Looking a key up without taking a reference. */
    method FindValueNoRef(x: Addr, k: Addr) returns (r: Result<Option<Addr>, Fault>)
      requires Valid() && x in cells && k in cells
      ensures r.Err? <==> !cells[x].content.Struct? || !IsString(cells[k].content)
      ensures r.Err? ==> r.error == TypeError
      ensures r.Ok? ==> MembersOk(cells, cells[x].content.members)
      ensures r.Ok? ==> r.value == Lookup(cells, cells[x].content.members, cells[k].content.scalar.text)
    {
      if !cells[x].content.Struct? || !IsString(cells[k].content) {
        return Err(TypeError);
      }
      var index := FindMember(x, cells[k].content.scalar.text);
      LookupAtPosition(cells, cells[x].content.members, cells[k].content.scalar.text);
      r := Ok(if index < 0 then None else Some(cells[x].content.members[index].value));
    }

    /** Looking a key up and taking a reference to what is found; a missing key is a fault. */
    method StructReadValue(x: Addr, k: Addr) returns (r: Result<Addr, Fault>)
      requires Valid() && x in cells && k in cells
      modifies this
      ensures Valid() && next == old(next) && ContentsOf(cells) == ContentsOf(old(cells))
      ensures r.Err? ==> cells == old(cells) && held == old(held)
      ensures old(cells)[x].content.Struct? && IsString(old(cells)[k].content) ==>
        MembersOk(old(cells), old(cells)[x].content.members)
      ensures r == if !old(cells)[x].content.Struct? || !IsString(old(cells)[k].content) then Err(TypeError)
                   else match Lookup(old(cells), old(cells)[x].content.members, old(cells)[k].content.scalar.text)
                        case Some(v) => Ok(v)
                        case None => Err(IndexError)
      ensures r.Ok? ==> held == old(held) + multiset{r.value}
    {
      var found := FindValueNoRef(x, k);
      if found.Err? {
        return Err(found.error);
      }
      if found.value.None? {
        return Err(IndexError);
      }
      var v := found.value.value;
      LookupIsLive(Ledger(), x, cells[k].content.scalar.text);
      IncRef(v);
      r := Ok(v);
    }

    /** Reading a member by index gives the caller references to the key and to the value. */
    method StructReadMember(x: Addr, index: nat) returns (r: Result<(Addr, Addr), Fault>)
      requires Valid() && x in cells
      modifies this
      ensures Valid() && next == old(next) && ContentsOf(cells) == ContentsOf(old(cells))
      ensures r.Err? ==> cells == old(cells) && held == old(held)
      ensures r == if !old(cells)[x].content.Struct? then Err(TypeError)
                   else if index >= |old(cells)[x].content.members| then Err(IndexError)
                   else Ok((old(cells)[x].content.members[index].key, old(cells)[x].content.members[index].value))
      ensures r.Ok? ==> held == old(held) + multiset{r.value.0} + multiset{r.value.1}
    {
      if !cells[x].content.Struct? {
        return Err(TypeError);
      }
      var members := cells[x].content.members;
      if index >= |members| {
        return Err(IndexError);
      }
      MemberRefsHas(members, index);
      ChildIsLive(Ledger(), x, members[index].key);
      ChildIsLive(Ledger(), x, members[index].value);
      IncRef(members[index].key);
      IncRef(members[index].value);
      r := Ok((members[index].key, members[index].value));
    }

    /** The obsolete accessor only borrows the key and the value. */
    method StructGetKeyAndValue(x: Addr, index: int) returns (r: Result<(Addr, Addr), Fault>)
      requires Valid() && x in cells
      modifies this
      ensures Valid() && cells == old(cells) && held == old(held) && next == old(next)
      ensures r == if index < 0 then Err(IndexError)
                   else if !cells[x].content.Struct? then Err(TypeError)
                   else if index >= |cells[x].content.members| then Err(IndexError)
                   else Ok((cells[x].content.members[index].key, cells[x].content.members[index].value))
    {
      if index < 0 {
        return Err(IndexError);
      }
      ghost var start := Ledger();
      hide Consistent, Collected, ContentsOf;
      r := StructReadMember(x, index);
      if r.Ok? {
        ghost var mid := Ledger();
        TwoReturned(start.held, r.value.0, r.value.1);
        DecRef(r.value.0);
        ghost var half := Ledger();
        DecRef(r.value.1);
        RestoredTwice(start, mid, half, Ledger(), rank(r.value.0), rank(r.value.1));
      }
    }

    /** A reference is taken to the new value before the one to the old value is released. */
    method ReplaceMember(x: Addr, k: Addr, index: nat, v: Addr)
      requires Valid() && MaySet(cells, x, k, v) && index < |cells[x].content.members|
      requires Position(cells, cells[x].content.members, TextAt(cells, k)) == index
      modifies this
      ensures Valid() && held == old(held) && next == old(next)
      ensures IsMemberSet(old(cells), x, k, v, cells)
    {
      hide Consistent, Reaches, Shrunk, Reranked, ContentsOf, Children, Collected, IsMemberSet, MembersOk,
        MemberWritten;
      ghost var start := Ledger();
      var members := cells[x].content.members;
      var changed := members[index := members[index].(value := v)];
      var oldValue := members[index].value;
      IncRef(v);
      ghost var before := Ledger();
      ReplaceReady(start, before, x, k, index, v);
      cells := cells[x := cells[x].(content := Struct(changed))];
      Transfer(before, x, Struct(changed), [v], multiset{oldValue});
      FormerChild(before, x, [v], oldValue, members, index);
      OneTaken(start.held, v, oldValue);
      ghost var mid := Ledger();
      MidMemberSet(start, before, mid, x, k, v);
      DecRef(oldValue);
      MemberSet(start, mid, x, k, v, oldValue, Ledger());
    }

    /** Both the key and the value are shared with the struct. */
    method AddMember(x: Addr, k: Addr, v: Addr)
      requires Valid() && MaySet(cells, x, k, v)
      requires Position(cells, cells[x].content.members, TextAt(cells, k)) == |cells[x].content.members|
      modifies this
      ensures Valid() && held == old(held) && next == old(next)
      ensures IsMemberSet(old(cells), x, k, v, cells)
    {
      hide Consistent, Reaches, Shrunk, Reranked, ContentsOf, Children, IsMemberSet, MembersOk, MemberWritten;
      ghost var start := Ledger();
      var members := cells[x].content.members;
      var hash := GetHash(cells[k].content.scalar.text);
      var changed := members + [Member(hash, k, v)];
      IncRef(k);
      IncRef(v);
      ghost var before := Ledger();
      AddReady(start, before, x, k, v);
      cells := cells[x := cells[x].(content := Struct(changed))];
      Transfer(before, x, Struct(changed), [k, v], multiset{});
      TwoTaken(start.held, k, v);
      MidMemberSet(start, before, Ledger(), x, k, v);
      MemberSetAtEnd(start, Ledger(), x, k, v);
    }

    /**
      A member is replaced in place or added at the end.  The reference to the old value is released
      last, so that replacing a value by itself is safe.
    */
    method StructSetValue(x: Addr, k: Addr, v: Addr) returns (fault: Option<Fault>)
      requires Valid() && x in cells && k in cells && v in cells
      requires cells[x].content.Struct? && IsString(cells[k].content) ==> !Reaches(cells, v, x)
      modifies this
      ensures Valid() && held == old(held) && next == old(next)
      ensures fault == if old(cells)[x].content.Struct? && IsString(old(cells)[k].content) then None
                       else Some(TypeError)
      ensures fault.Some? ==> cells == old(cells)
      ensures fault.None? ==> IsMemberSet(old(cells), x, k, v, cells)
    {
      if !cells[x].content.Struct? || !IsString(cells[k].content) {
        return Some(TypeError);
      }
      ghost var start := Ledger();
      var key := cells[k].content.scalar.text;
      var members := cells[x].content.members;
      var index := FindMember(x, key);
      if index >= 0 {
        ReplaceMember(x, k, index, v);
      } else {
        AddMember(x, k, v);
      }
      fault := None;
    }
  }

  /** The references in `gone`, out of those that the dying value `v` owned, have been released. */
  ghost predicate Draining(s: State, later: State, v: Addr, gone: multiset<Addr>) {
    && Consistent(later)
    && later.dying == s.dying && later.held == s.held - gone
    && Collected(s, later, s.rank(v) - 1)
  }

  lemma DrainStart(s: State, v: Addr)
    requires Consistent(s)
    ensures Draining(s, s, v, multiset{})
  {}

  lemma DrainReady(s: State, mid: State, v: Addr, gone: multiset<Addr>, c: Addr)
    requires Draining(s, mid, v, gone) && v in s.cells && c in Children(s.cells[v].content)
    requires gone + multiset{c} <= s.held
    ensures Consistent(mid) && mid.held[c] > 0 && mid.dying == s.dying
    ensures mid.cells.Keys <= s.cells.Keys
  {
    assert (gone + multiset{c})[c] <= s.held[c];
  }

  lemma DrainMore(s: State, mid: State, later: State, v: Addr, gone: multiset<Addr>, c: Addr)
    requires Draining(s, mid, v, gone) && v in s.cells && c in Children(s.cells[v].content)
    requires Consistent(later) && later.held == mid.held - multiset{c} && later.dying == mid.dying
    requires Collected(mid, later, mid.rank(c))
    ensures Draining(s, later, v, gone + multiset{c})
  {
    assert mid.cells[v].content == s.cells[v].content;
    CollectedStep(s, mid, later, mid.rank(c), s.rank(v) - 1);
  }

  lemma SumMonotone(gone: multiset<Addr>, p: Addr, q: Addr)
    ensures gone + multiset{p} <= gone + multiset{p} + multiset{q}
  {}

  lemma CollectedReaches(s: State, s': State, x: Addr, y: Addr)
    requires s'.cells.Keys == s.cells.Keys
    requires forall a :: a in s.cells ==> s'.cells[a].content == s.cells[a].content
    ensures Reaches(s.cells, x, y) <==> Reaches(s'.cells, x, y)
  {
    ReachesSame(s.cells, s'.cells, x, y);
  }

  lemma GainsBy(cells: Cells, x: Addr, c: Content, gained: seq<Addr>, dropped: multiset<Addr>, cells': Cells)
    requires x in cells && cells' == cells[x := cells[x].(content := c)]
    requires multiset(Children(c)) + dropped == multiset(Children(cells[x].content)) + multiset(gained)
    requires dropped <= multiset(Children(cells[x].content))
    ensures Gains(cells, x, gained, cells')
  {
    var had := Children(cells[x].content);
    forall y | y in Children(c)
      ensures y in gained || y in had
    {
      assert (multiset(Children(c)) + dropped)[y] == (multiset(had) + multiset(gained))[y];
      assert y in multiset(Children(c));
    }
    forall g | g in gained
      ensures g in Children(c)
    {
      assert (multiset(Children(c)) + dropped)[g] == (multiset(had) + multiset(gained))[g];
      assert g in multiset(gained) && g in multiset(Children(c));
    }
  }

  lemma ItemAppended(items: seq<Addr>, v: Addr)
    ensures multiset(Children(Array(items + [v]))) + multiset{}
         == multiset(Children(Array(items))) + multiset([v])
  {}

  lemma ContentWritten(cells: Cells, counted: Cells, x: Addr, c: Content)
    requires x in cells && ContentsOf(counted) == ContentsOf(cells)
    ensures x in counted && ContentsOf(counted[x := counted[x].(content := c)]) == ContentsOf(cells)[x := c]
  {
    assert x in ContentsOf(cells);
  }

  /** Nothing was written and the outside references are the same again: so is the heap. */
  lemma Restored(s: State, mid: State, s': State, top: int)
    requires Consistent(s) && s.dying == {} && Consistent(s') && s'.dying == {} && s'.held == s.held
    requires ContentsOf(mid.cells) == ContentsOf(s.cells) && Collected(mid, s', top)
    ensures s'.cells == s.cells
  {
    forall a | a in s.cells && a in s'.cells
      ensures s.cells[a].content == s'.cells[a].content
    {
      assert ContentsOf(mid.cells)[a] == ContentsOf(s.cells)[a];
    }
    Determined(s, s');
  }

  lemma RestoredTwice(s: State, mid: State, half: State, s': State, p: int, q: int)
    requires Consistent(s) && s.dying == {} && Consistent(s') && s'.dying == {} && s'.held == s.held
    requires ContentsOf(mid.cells) == ContentsOf(s.cells) && Collected(mid, half, p) && Collected(half, s', q)
    ensures s'.cells == s.cells
  {
    var top := if p < q then q else p;
    Restored(s, mid, s', top);
  }

  lemma TwoReturned(held: multiset<Addr>, p: Addr, q: Addr)
    ensures (held + multiset{p} + multiset{q})[p] > 0 && (held + multiset{p} + multiset{q} - multiset{p})[q] > 0
    ensures held + multiset{p} + multiset{q} - multiset{p} - multiset{q} == held
  {}

  lemma TakenAndGiven(held: multiset<Addr>, gained: seq<Addr>, dropped: multiset<Addr>)
    ensures held + multiset(gained) - multiset(gained) + dropped == held + dropped
  {}

  lemma LookupIsLive(s: State, x: Addr, key: seq<byte>)
    requires Consistent(s) && s.dying == {} && x in s.cells && s.cells[x].content.Struct?
    requires MembersOk(s.cells, s.cells[x].content.members)
    ensures var found := Lookup(s.cells, s.cells[x].content.members, key);
            found.Some? ==> found.value in s.cells && s.rank(found.value) < s.rank(x)
  {
    var ms := s.cells[x].content.members;
    LookupAtPosition(s.cells, ms, key);
    var i := Position(s.cells, ms, key);
    if i < |ms| {
      MemberRefsHas(ms, i);
      ChildIsLive(s, x, ms[i].value);
    }
  }

  lemma ChangedAllowed(s: State, s': State, ms: seq<Member>)
    requires MembersOk(s.cells, ms) && ContentsOf(s'.cells) == ContentsOf(s.cells)
    ensures MembersOk(s'.cells, ms)
  {
    forall i | 0 <= i < |ms|
      ensures IsText(s'.cells, ms[i].key) && TextAt(s'.cells, ms[i].key) == TextAt(s.cells, ms[i].key)
    {
      assert ms[i].key in ContentsOf(s.cells);
      assert ContentsOf(s'.cells)[ms[i].key] == ContentsOf(s.cells)[ms[i].key];
    }
  }

  lemma MemberRefsSplit(init: seq<Member>, m: Member)
    ensures multiset(MemberRefs(init + [m])) == multiset(MemberRefs(init)) + multiset{m.key, m.value}
  {
    assert (init + [m])[..|init|] == init;
  }

  lemma UpdatedPrefix(init: seq<Member>, last: Member, i: nat, m: Member)
    requires i <= |init|
    ensures (init + [last])[i := m] == if i < |init| then init[i := m] + [last] else init + [m]
  {}

  lemma BothGrow(p: multiset<Addr>, q: multiset<Addr>, r: multiset<Addr>, t: multiset<Addr>, d: multiset<Addr>)
    requires p + q == r + t && q <= r
    ensures p + d + q == r + d + t && q <= r + d
  {
    assert p + d + q == p + q + d;
  }

  lemma LastReplaced(p: multiset<Addr>, k: Addr, v: Addr, w: Addr)
    ensures p + multiset{k, v} + multiset{w} == p + multiset{k, w} + multiset{v}
    ensures multiset{w} <= p + multiset{k, w}
  {}

  lemma {:induction false} MemberReplaced(ms: seq<Member>, i: nat, v: Addr)
    requires i < |ms|
    ensures multiset(MemberRefs(ms[i := ms[i].(value := v)])) + multiset{ms[i].value}
         == multiset(MemberRefs(ms)) + multiset{v}
    ensures multiset{ms[i].value} <= multiset(MemberRefs(ms))
    decreases |ms|
  {
    var init, last := ms[..|ms| - 1], ms[|ms| - 1];
    assert ms == init + [last];
    UpdatedPrefix(init, last, i, ms[i].(value := v));
    MemberRefsSplit(init, last);
    hide MemberRefs;
    var d := multiset{last.key, last.value};
    if i < |init| {
      assert init[i] == ms[i];
      MemberReplaced(init, i, v);
      MemberRefsSplit(init[i := ms[i].(value := v)], last);
      BothGrow(multiset(MemberRefs(init[i := ms[i].(value := v)])), multiset{ms[i].value},
               multiset(MemberRefs(init)), multiset{v}, d);
    } else {
      MemberRefsSplit(init, last.(value := v));
      LastReplaced(multiset(MemberRefs(init)), last.key, v, last.value);
    }
  }

  lemma ChildrenReplaced(ms: seq<Member>, i: nat, v: Addr)
    requires i < |ms|
    ensures multiset(Children(Struct(ms[i := ms[i].(value := v)]))) + multiset{ms[i].value}
         == multiset(Children(Struct(ms))) + multiset([v])
    ensures multiset{ms[i].value} <= multiset(Children(Struct(ms)))
  {
    MemberReplaced(ms, i, v);
  }

  lemma MemberAdded(ms: seq<Member>, m: Member)
    ensures multiset(Children(Struct(ms + [m]))) + multiset{}
         == multiset(Children(Struct(ms))) + multiset([m.key, m.value])
  {
    assert (ms + [m])[..|ms|] == ms;
  }

  lemma OneTaken(held: multiset<Addr>, v: Addr, dropped: Addr)
    ensures multiset([v]) <= held + multiset{v}
    ensures held + multiset{v} - multiset([v]) + multiset{dropped} == held + multiset{dropped}
    ensures (held + multiset{dropped})[dropped] > 0 && held + multiset{dropped} - multiset{dropped} == held
  {}

  lemma TwoTaken(held: multiset<Addr>, k: Addr, v: Addr)
    ensures multiset([k, v]) <= held + multiset{k} + multiset{v}
    ensures held + multiset{k} + multiset{v} - multiset([k, v]) + multiset{} == held
  {}

  /** A string refers to nothing, so it reaches only itself. */
  lemma TextReachesItself(cells: Cells, k: Addr, x: Addr)
    requires IsText(cells, k) && k != x
    ensures !Reaches(cells, k, x)
  {
    forall p
      ensures !PathBetween(cells, p, k, x)
    {
      if |p| > 1 { assert !RefersTo(cells, k, p[1]); }
    }
  }

  lemma FormerChild(s: State, x: Addr, gained: seq<Addr>, y: Addr, ms: seq<Member>, i: nat)
    requires Consistent(s) && x in s.cells && s.cells[x].content == Struct(ms) && i < |ms| && y == ms[i].value
    ensures Reranked(s.cells, s.rank, x, gained)(y) < Reranked(s.cells, s.rank, x, gained)(x)
  {
    MemberRefsHas(ms, i);
    OldChildRanksLower(s.cells, s.rank, x, gained, y);
  }

  /** A struct, a key and a value that may become its member. */
  ghost predicate MaySet(cells: Cells, x: Addr, k: Addr, v: Addr) {
    && x in cells && cells[x].content.Struct? && IsText(cells, k) && v in cells
    && MembersOk(cells, cells[x].content.members) && !Reaches(cells, v, x)
  }

  lemma ReplaceReady(s: State, before: State, x: Addr, k: Addr, index: nat, v: Addr)
    requires MaySet(s.cells, x, k, v) && index < |s.cells[x].content.members|
    requires Position(s.cells, s.cells[x].content.members, TextAt(s.cells, k)) == index
    requires ContentsOf(before.cells) == ContentsOf(s.cells) && before.cells.Keys == s.cells.Keys
    requires before.held == s.held + multiset{v}
    ensures var ms := s.cells[x].content.members;
            var changed := ms[index := ms[index].(value := v)];
            && before.cells[x].content == Struct(ms)
            && MembersOk(before.cells, changed) && !Reaches(before.cells, v, x)
            && multiset([v]) <= before.held && multiset{ms[index].value} <= multiset(Children(Struct(ms)))
            && multiset(Children(Struct(changed))) + multiset{ms[index].value}
               == multiset(Children(Struct(ms))) + multiset([v])
  {
    var ms := s.cells[x].content.members;
    ContentsAgree(s.cells, before.cells);
    ReachesSame(s.cells, before.cells, v, x);
    WithMemberOk(s.cells, ms, k, v);
    ChangedAllowed(s, before, ms[index := ms[index].(value := v)]);
    hide MembersOk, Reaches, Children;
    ChildrenReplaced(ms, index, v);
    OneTaken(s.held, v, ms[index].value);
  }

  lemma AddReady(s: State, before: State, x: Addr, k: Addr, v: Addr)
    requires MaySet(s.cells, x, k, v)
    requires Position(s.cells, s.cells[x].content.members, TextAt(s.cells, k)) == |s.cells[x].content.members|
    requires ContentsOf(before.cells) == ContentsOf(s.cells) && before.cells.Keys == s.cells.Keys
    requires before.held == s.held + multiset{k} + multiset{v}
    ensures var ms := s.cells[x].content.members;
            var changed := ms + [Member(Hash(TextAt(s.cells, k)), k, v)];
            && before.cells[x].content == Struct(ms)
            && MembersOk(before.cells, changed)
            && (forall g :: g in [k, v] ==> !Reaches(before.cells, g, x))
            && multiset([k, v]) <= before.held
            && multiset(Children(Struct(changed))) + multiset{} == multiset(Children(Struct(ms))) + multiset([k, v])
  {
    var ms := s.cells[x].content.members;
    var m := Member(Hash(TextAt(s.cells, k)), k, v);
    ContentsAgree(s.cells, before.cells);
    ReachesSame(s.cells, before.cells, v, x);
    TextReachesItself(before.cells, k, x);
    WithMemberOk(s.cells, ms, k, v);
    ChangedAllowed(s, before, ms + [m]);
    hide MembersOk, Reaches, Children;
    MemberAdded(ms, m);
    TwoTaken(s.held, k, v);
  }

  lemma ContentsAgree(cells: Cells, cells': Cells)
    requires ContentsOf(cells') == ContentsOf(cells) && cells'.Keys == cells.Keys
    ensures forall a :: a in cells ==> cells'[a].content == cells[a].content
    ensures Shrunk(cells, cells')
  {
    forall a | a in cells
      ensures cells'[a].content == cells[a].content
    {
      assert ContentsOf(cells')[a] == ContentsOf(cells)[a];
    }
  }

  /** The struct is written; nothing has been freed yet. */
  ghost predicate MemberWritten(s: State, x: Addr, k: Addr, v: Addr, mid: State) {
    && x in s.cells && s.cells[x].content.Struct? && IsText(s.cells, k)
    && MembersOk(s.cells, s.cells[x].content.members)
    && mid.cells.Keys == s.cells.Keys
    && mid.cells[x].content == Struct(WithMember(s.cells, s.cells[x].content.members, k, v))
    && forall a :: a in s.cells && a != x ==> mid.cells[a].content == s.cells[a].content
  }

  lemma MidMemberSet(s: State, before: State, mid: State, x: Addr, k: Addr, v: Addr)
    requires MaySet(s.cells, x, k, v)
    requires ContentsOf(before.cells) == ContentsOf(s.cells) && before.cells.Keys == s.cells.Keys
    requires mid.cells == before.cells[x := before.cells[x].(
      content := Struct(WithMember(s.cells, s.cells[x].content.members, k, v)))]
    ensures MemberWritten(s, x, k, v, mid)
  {
    ContentsAgree(s.cells, before.cells);
  }

  lemma MemberSet(s: State, mid: State, x: Addr, k: Addr, v: Addr, dropped: Addr, s': State)
    requires MemberWritten(s, x, k, v, mid)
    requires Collected(mid, s', mid.rank(dropped)) && mid.rank(dropped) < mid.rank(x)
    requires Position(s.cells, s.cells[x].content.members, TextAt(s.cells, k)) < |s.cells[x].content.members|
    ensures IsMemberSet(s.cells, x, k, v, s'.cells)
  {}

  lemma MemberSetAtEnd(s: State, s': State, x: Addr, k: Addr, v: Addr)
    requires MemberWritten(s, x, k, v, s')
    ensures IsMemberSet(s.cells, x, k, v, s'.cells)
  {}

  lemma NoMemberRefs(ms: seq<Member>)
    requires ms == []
    ensures multiset(MemberRefs(ms)) == multiset{}
  {}

  lemma ChildrenOf(c: Content)
    ensures c.Array? ==> Children(c) == c.items
    ensures c.Struct? ==> Children(c) == MemberRefs(c.members)
    ensures !c.Array? && !c.Struct? ==> Children(c) == []
  {}

  lemma LastReference(s: State, v: Addr, s': State)
    requires Consistent(s) && s.held[v] > 0 && v in s.cells && s.cells[v].refs == 1
    requires s' == s.(cells := s.cells[v := s.cells[v].(refs := 0)], dying := s.dying + {v},
                      held := s.held - multiset{v} + multiset(Children(s.cells[v].content)))
    ensures Consistent(s') && Collected(s, s', s.rank(v))
    ensures var owned := multiset(Children(s'.cells[v].content));
            owned <= s'.held && s'.held - owned == s.held - multiset{v}
  {
    DestroyConsistent(s, v, s');
  }

  lemma OtherReferences(s: State, v: Addr, s': State)
    requires Consistent(s) && s.held[v] > 0 && v in s.cells && s.cells[v].refs > 1
    requires s' == s.(cells := s.cells[v := s.cells[v].(refs := s.cells[v].refs - 1)],
                      held := s.held - multiset{v})
    ensures Consistent(s') && Collected(s, s', s.rank(v))
  {
    ReleaseConsistent(s, v, s');
  }

  lemma Drained(s: State, later: State, v: Addr, gone: multiset<Addr>)
    requires Draining(s, later, v, gone)
    ensures Consistent(later) && later.dying == s.dying && later.held == s.held - gone
    ensures Collected(s, later, s.rank(v) - 1) && later.rank == s.rank && later.next == s.next
  {}

  lemma FreedOne(s: State, mid: State, v: Addr, s': State)
    requires Collected(s, mid, s.rank(v) - 1) && s'.cells == mid.cells - {v}
    requires s'.next == mid.next && s'.rank == mid.rank
    ensures Collected(s, s', s.rank(v))
  {}
}
