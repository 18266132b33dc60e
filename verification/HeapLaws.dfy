/** What the counts of the value heap count, and what a struct is as a list of members. */
module HeapLaws {
  import opened Bytes
  import opened Outcomes
  import opened HeapState

  // ----- references -----

  function InItems(items: seq<Addr>, a: Addr): nat {
    if items == [] then 0 else (if items[0] == a then 1 else 0) + InItems(items[1..], a)
  }

  function InMembers(ms: seq<Member>, a: Addr): nat {
    if ms == [] then 0
    else
      var last := ms[|ms| - 1];
      InMembers(ms[..|ms| - 1], a) + (if last.key == a then 1 else 0) + if last.value == a then 1 else 0
  }

  /** How often a value refers to another: as an item, as a key or as a member's value. */
  function Mentions(c: Content, a: Addr): nat {
    match c
    case Array(items) => InItems(items, a)
    case Struct(ms) => InMembers(ms, a)
    case _ => 0
  }

  lemma {:induction false} ItemsCount(items: seq<Addr>, a: Addr)
    ensures multiset(items)[a] == InItems(items, a)
  {
    if items != [] {
      ItemsCount(items[1..], a);
      assert items == [items[0]] + items[1..];
    }
  }

  lemma PairCount(refs: seq<Addr>, k: Addr, v: Addr, a: Addr)
    ensures multiset(refs + [k, v])[a] == multiset(refs)[a] + (if k == a then 1 else 0) + if v == a then 1 else 0
  {
    assert multiset(refs + [k, v]) == multiset(refs) + multiset{k} + multiset{v};
  }

  lemma {:induction false} MembersCount(ms: seq<Member>, a: Addr)
    ensures multiset(MemberRefs(ms))[a] == InMembers(ms, a)
  {
    if ms != [] {
      var n := |ms| - 1;
      MembersCount(ms[..n], a);
      PairCount(MemberRefs(ms[..n]), ms[n].key, ms[n].value, a);
    }
  }

  /** All mentions of `a` in the values below address `n` that are not being destroyed. */
  function MentionsBelow(s: State, n: nat, a: Addr): nat {
    if n == 0 then 0
    else
      MentionsBelow(s, n - 1, a) +
      if n - 1 in s.cells && n - 1 !in s.dying then Mentions(s.cells[n - 1].content, a) else 0
  }

  lemma {:induction false} MentionsCount(s: State, n: nat, a: Addr)
    ensures Occurrences(s.cells, s.dying, n, a) == MentionsBelow(s, n, a)
  {
    if n > 0 {
      MentionsCount(s, n - 1, a);
      if n - 1 in s.cells {
        match s.cells[n - 1].content {
          case Array(items) => ItemsCount(items, a);
          case Struct(ms) => MembersCount(ms, a);
          case _ =>
        }
      }
    }
  }

  /**
    A live value's count is the number of outside references to it and of mentions in live values, and
    it is positive; nothing that is gone is referred to or mentioned.
  */
  lemma CountIs(s: State, a: Addr)
    requires Consistent(s) && s.dying == {}
    ensures a in s.cells ==> s.cells[a].refs == s.held[a] + MentionsBelow(s, s.next, a) && s.cells[a].refs > 0
    ensures a !in s.cells ==> s.held[a] == 0 && MentionsBelow(s, s.next, a) == 0
    ensures forall x :: x in s.cells ==> x < s.next
  {
    MentionsCount(s, s.next, a);
    assert Balanced(s, a);
  }

  // ----- structs -----

  function ByteSum(key: seq<byte>): nat {
    if key == [] then 0 else ByteSum(key[..|key| - 1]) + key[|key| - 1]
  }

  lemma WrappedSum(sum: nat, b: nat)
    ensures (sum % 256 + b) % 256 == (sum + b) % 256
  {}

  lemma {:induction false} HashIs(key: seq<byte>)
    ensures Hash(key) == ByteSum(key) % 256
  {
    if key != [] {
      var n := |key| - 1;
      HashIs(key[..n]);
      WrappedSum(ByteSum(key[..n]), key[n]);
    }
  }

  /** Members have keys that are strings, the right hashes, and no key twice. */
  lemma MembersAre(cells: Cells, ms: seq<Member>)
    requires MembersOk(cells, ms)
    ensures forall i :: 0 <= i < |ms| ==> IsText(cells, ms[i].key)
    ensures forall i :: 0 <= i < |ms| ==> ms[i].hash == ByteSum(TextAt(cells, ms[i].key)) % 256
    ensures forall i, j :: 0 <= i < j < |ms| ==> TextAt(cells, ms[i].key) != TextAt(cells, ms[j].key)
  {
    forall i | 0 <= i < |ms|
      ensures ms[i].hash == ByteSum(TextAt(cells, ms[i].key)) % 256
    {
      HashIs(TextAt(cells, ms[i].key));
    }
  }

  /** A key that is there keeps its member, its place and its key object; a new one is added at the end. */
  lemma WithMemberIs(cells: Cells, ms: seq<Member>, k: Addr, v: Addr, i: nat)
    requires MembersOk(cells, ms) && IsText(cells, k)
    ensures i < |ms| && TextAt(cells, ms[i].key) == TextAt(cells, k) ==>
              WithMember(cells, ms, k, v) == ms[..i] + [Member(ms[i].hash, ms[i].key, v)] + ms[i + 1..]
    ensures (forall j :: 0 <= j < |ms| ==> TextAt(cells, ms[j].key) != TextAt(cells, k)) ==>
              WithMember(cells, ms, k, v) == ms + [Member(ByteSum(TextAt(cells, k)) % 256, k, v)]
  {
    HashIs(TextAt(cells, k));
  }

  lemma LookupIs(cells: Cells, ms: seq<Member>, key: seq<byte>, v: Addr)
    requires MembersOk(cells, ms)
    ensures Lookup(cells, ms, key) == Some(v) <==>
              exists i :: 0 <= i < |ms| && TextAt(cells, ms[i].key) == key && ms[i].value == v
  {
    LookupAtPosition(cells, ms, key);
  }
}
