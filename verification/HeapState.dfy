/**
  The memory that holds XML-RPC values, and its ledger of references.

  An address maps to a cell as long as the value is allocated; freeing removes the cell.  The ledger
  adds what the C code keeps in local variables: the multiset of references held outside the heap, and
  the values that are being destroyed, whose references the destroying call holds.
*/
module HeapState {
  import opened Bytes
  import opened Outcomes
  import opened Values

  type Addr = nat

  datatype Member = Member(hash: nat, key: Addr, value: Addr)

  datatype Content =
    | Leaf(scalar: Scalar)
    | Array(items: seq<Addr>)
    | Struct(members: seq<Member>)

  datatype Cell = Cell(refs: nat, content: Content)

  type Cells = map<Addr, Cell>

  /** `next` bounds the addresses in use; `rank` decreases along every reference. */
  datatype State = State(cells: Cells, next: Addr, held: multiset<Addr>, dying: set<Addr>, rank: Addr -> nat)

  function MemberRefs(ms: seq<Member>): seq<Addr> {
    if ms == [] then [] else MemberRefs(ms[..|ms| - 1]) + [ms[|ms| - 1].key, ms[|ms| - 1].value]
  }

  predicate IsString(c: Content) {
    c.Leaf? && c.scalar.String?
  }

  /** The references that a value owns, in the order in which its destruction releases them. */
  function Children(c: Content): seq<Addr> {
    match c
    case Array(items) => items
    case Struct(members) => MemberRefs(members)
    case _ => []
  }

  // ----- counting references -----

  function Owns(cells: Cells, dying: set<Addr>, x: Addr, a: Addr): nat {
    if x in cells && x !in dying then multiset(Children(cells[x].content))[a] else 0
  }

  /** How often `a` occurs in the containers below address `n` that are not being destroyed. */
  function Occurrences(cells: Cells, dying: set<Addr>, n: nat, a: Addr): nat {
    if n == 0 then 0 else Occurrences(cells, dying, n - 1, a) + Owns(cells, dying, n - 1, a)
  }

  lemma {:induction false} OccurrencesEqual(c: Cells, d: set<Addr>, c': Cells, d': set<Addr>, n: nat, a: Addr)
    requires forall x :: 0 <= x < n ==> Owns(c, d, x, a) == Owns(c', d', x, a)
    ensures Occurrences(c, d, n, a) == Occurrences(c', d', n, a)
  {
    if n > 0 {
      OccurrencesEqual(c, d, c', d', n - 1, a);
    }
  }

  /** Two heaps that differ in one container differ in the count by that container's share. */
  lemma {:induction false} OccurrencesDiffer(c: Cells, d: set<Addr>, c': Cells, d': set<Addr>, n: nat, y: Addr, a: Addr)
    requires y < n
    requires forall x :: 0 <= x < n && x != y ==> Owns(c, d, x, a) == Owns(c', d', x, a)
    ensures Occurrences(c, d, n, a) + Owns(c', d', y, a) == Occurrences(c', d', n, a) + Owns(c, d, y, a)
  {
    if n - 1 == y {
      OccurrencesEqual(c, d, c', d', n - 1, a);
    } else {
      OccurrencesDiffer(c, d, c', d', n - 1, y, a);
    }
  }

  lemma {:induction false} OccurrencesInclude(c: Cells, d: set<Addr>, n: nat, y: Addr, a: Addr)
    requires y < n
    ensures Owns(c, d, y, a) <= Occurrences(c, d, n, a)
  {
    if n - 1 != y {
      OccurrencesInclude(c, d, n - 1, y, a);
    }
  }

  lemma {:induction false} FindOwner(c: Cells, d: set<Addr>, n: nat, a: Addr) returns (y: Addr)
    requires Occurrences(c, d, n, a) > 0
    ensures y < n && Owns(c, d, y, a) > 0
  {
    if Owns(c, d, n - 1, a) > 0 {
      y := n - 1;
    } else {
      y := FindOwner(c, d, n - 1, a);
    }
  }

  lemma {:induction false} OccurrencesBeyond(c: Cells, d: set<Addr>, n: nat, m: nat, a: Addr)
    requires n <= m && forall x :: x in c ==> x < n
    ensures Occurrences(c, d, m, a) == Occurrences(c, d, n, a)
    decreases m
  {
    if n < m {
      OccurrencesBeyond(c, d, n, m - 1, a);
    }
  }

  // ----- struct members -----

  /** `get_hash`: the sum of the bytes in an unsigned char. */
  function Hash(key: seq<byte>): nat {
    if key == [] then 0 else (Hash(key[..|key| - 1]) + key[|key| - 1]) % 256
  }

  ghost predicate IsText(cells: Cells, a: Addr) {
    a in cells && IsString(cells[a].content)
  }

  function TextAt(cells: Cells, a: Addr): seq<byte>
    requires IsText(cells, a)
  {
    cells[a].content.scalar.text
  }

  /** Keys are strings, hashes match their keys, and no key occurs twice. */
  ghost predicate MembersOk(cells: Cells, ms: seq<Member>) {
    && (forall i :: 0 <= i < |ms| ==> IsText(cells, ms[i].key) && ms[i].hash == Hash(TextAt(cells, ms[i].key)))
    && forall i, j :: 0 <= i < j < |ms| ==> TextAt(cells, ms[i].key) != TextAt(cells, ms[j].key)
  }

  // ----- consistency -----

  ghost predicate Bounded(s: State) {
    s.dying <= s.cells.Keys && forall a :: a in s.cells ==> a < s.next
  }

  /** The reference count is the number of references held outside plus those in live containers. */
  ghost predicate Balanced(s: State, a: Addr) {
    var owed := s.held[a] + Occurrences(s.cells, s.dying, s.next, a);
    if a in s.cells then s.cells[a].refs == owed && (owed == 0 <==> a in s.dying) else owed == 0
  }

  ghost predicate Ranked(cells: Cells, rank: Addr -> nat) {
    forall x, y :: x in cells && y in Children(cells[x].content) ==> rank(y) < rank(x)
  }

  ghost predicate StructsOk(cells: Cells, dying: set<Addr>) {
    forall x :: x in cells && x !in dying && cells[x].content.Struct? ==> MembersOk(cells, cells[x].content.members)
  }

  ghost predicate Consistent(s: State) {
    && Bounded(s)
    && (forall a :: Balanced(s, a))
    && Ranked(s.cells, s.rank)
    && StructsOk(s.cells, s.dying)
  }

  /** What a live container refers to is live. */
  lemma ChildIsLive(s: State, x: Addr, a: Addr)
    requires Consistent(s) && x in s.cells && x !in s.dying && a in Children(s.cells[x].content)
    ensures a in s.cells && a !in s.dying
  {
    assert Balanced(s, a);
    OccurrencesInclude(s.cells, s.dying, s.next, x, a);
  }

  lemma {:induction false} MemberRefsHas(ms: seq<Member>, i: nat)
    requires i < |ms|
    ensures ms[i].key in MemberRefs(ms) && ms[i].value in MemberRefs(ms)
  {
    var refs := MemberRefs(ms);
    if i == |ms| - 1 {
      assert refs[|refs| - 2] == ms[i].key && refs[|refs| - 1] == ms[i].value;
    } else {
      MemberRefsHas(ms[..|ms| - 1], i);
    }
  }

  // ----- transitions -----

  /** Only counts change: nothing is allocated, freed or rewritten. */
  ghost predicate Recounted(s: State, s': State) {
    && s'.cells.Keys == s.cells.Keys && s'.next == s.next && s'.rank == s.rank
    && forall x :: x in s.cells ==> s'.cells[x].content == s.cells[x].content
  }

  lemma ShapeKept(s: State, s': State)
    requires Consistent(s) && Recounted(s, s') && s.dying <= s'.dying <= s'.cells.Keys
    ensures Bounded(s') && Ranked(s'.cells, s'.rank) && StructsOk(s'.cells, s'.dying)
  {
    forall x | x in s'.cells && x !in s'.dying && s'.cells[x].content.Struct?
      ensures MembersOk(s'.cells, s'.cells[x].content.members)
    {
      assert MembersOk(s.cells, s.cells[x].content.members);
    }
  }

  lemma OccurrencesKept(s: State, s': State, a: Addr)
    requires Recounted(s, s') && s'.dying == s.dying
    ensures Occurrences(s'.cells, s'.dying, s'.next, a) == Occurrences(s.cells, s.dying, s.next, a)
  {
    OccurrencesEqual(s.cells, s.dying, s'.cells, s'.dying, s.next, a);
  }

  /** A reference that is given up while others remain. */
  lemma ReleaseConsistent(s: State, v: Addr, s': State)
    requires Consistent(s) && s.held[v] > 0 && v in s.cells && s.cells[v].refs > 1
    requires s' == s.(cells := s.cells[v := s.cells[v].(refs := s.cells[v].refs - 1)],
                      held := s.held - multiset{v})
    ensures Consistent(s')
  {
    ShapeKept(s, s');
    forall a
      ensures Balanced(s', a)
    {
      assert Balanced(s, a);
      OccurrencesKept(s, s', a);
    }
  }

  /** The last reference is given up: destruction starts, and its caller holds what the value owned. */
  lemma DestroyConsistent(s: State, v: Addr, s': State)
    requires Consistent(s) && s.held[v] > 0 && v in s.cells && s.cells[v].refs == 1
    requires s' == s.(cells := s.cells[v := s.cells[v].(refs := 0)], dying := s.dying + {v},
                      held := s.held - multiset{v} + multiset(Children(s.cells[v].content)))
    ensures Consistent(s')
  {
    ShapeKept(s, s');
    assert Balanced(s, v);
    forall a
      ensures Balanced(s', a)
    {
      assert Balanced(s, a);
      OccurrencesDropped(s, v, s', a);
    }
  }

  lemma OccurrencesDropped(s: State, v: Addr, s': State, a: Addr)
    requires Recounted(s, s') && s'.dying == s.dying + {v} && v in s.cells && v < s.next && v !in s.dying
    ensures Occurrences(s'.cells, s'.dying, s'.next, a) + multiset(Children(s.cells[v].content))[a]
         == Occurrences(s.cells, s.dying, s.next, a)
  {
    OccurrencesDiffer(s.cells, s.dying, s'.cells, s'.dying, s.next, v, a);
  }

  /** What destruction frees nobody refers to. */
  lemma FreeConsistent(s: State, v: Addr, s': State)
    requires Consistent(s) && v in s.dying
    requires s' == s.(cells := s.cells - {v}, dying := s.dying - {v})
    ensures Consistent(s')
  {
    forall a
      ensures Balanced(s', a)
    {
      assert Balanced(s, a);
      OccurrencesEqual(s.cells, s.dying, s'.cells, s'.dying, s.next, a);
    }
    forall x | x in s'.cells && x !in s'.dying && s'.cells[x].content.Struct?
      ensures MembersOk(s'.cells, s'.cells[x].content.members)
    {
      var ms := s.cells[x].content.members;
      forall i | 0 <= i < |ms|
        ensures IsText(s'.cells, ms[i].key) && TextAt(s'.cells, ms[i].key) == TextAt(s.cells, ms[i].key)
      {
        MemberRefsHas(ms, i);
        ChildIsLive(s, x, ms[i].key);
      }
    }
  }

  lemma RetainConsistent(s: State, v: Addr, s': State)
    requires Consistent(s) && v in s.cells && v !in s.dying
    requires s' == s.(cells := s.cells[v := s.cells[v].(refs := s.cells[v].refs + 1)],
                      held := s.held + multiset{v})
    ensures Consistent(s')
  {
    ShapeKept(s, s');
    forall a
      ensures Balanced(s', a)
    {
      assert Balanced(s, a);
      OccurrencesKept(s, s', a);
    }
  }

  /** A new value that owns nothing, held once by its creator. */
  lemma AllocateConsistent(s: State, c: Content, s': State)
    requires Consistent(s) && s.dying == {} && Children(c) == []
    requires c.Struct? ==> c.members == []
    requires s' == s.(cells := s.cells[s.next := Cell(1, c)], next := s.next + 1, held := s.held + multiset{s.next})
    ensures Consistent(s')
  {
    forall a
      ensures Balanced(s', a)
    {
      assert Balanced(s, a);
      OccurrencesEqual(s.cells, s.dying, s'.cells, s'.dying, s.next, a);
    }
    forall x | x in s'.cells && x !in s'.dying && s'.cells[x].content.Struct?
      ensures MembersOk(s'.cells, s'.cells[x].content.members)
    {
      if x != s.next { assert MembersOk(s.cells, s.cells[x].content.members); }
    }
  }

  /** A container's references change: `given` pass from the caller to it, `dropped` from it to the caller. */
  lemma TransferConsistent(s: State, x: Addr, c: Content, given: multiset<Addr>, dropped: multiset<Addr>,
                           rank: Addr -> nat, s': State)
    requires Consistent(s) && s.dying == {} && x in s.cells && given <= s.held
    requires multiset(Children(c)) + dropped == multiset(Children(s.cells[x].content)) + given
    requires c.Struct? ==> MembersOk(s.cells, c.members)
    requires !IsString(s.cells[x].content)
    requires s'.cells == s.cells[x := s.cells[x].(content := c)]
    requires s'.next == s.next && s'.dying == {} && s'.rank == rank && s'.held == s.held - given + dropped
    requires Ranked(s'.cells, rank)
    ensures Consistent(s')
  {
    forall a
      ensures Balanced(s', a)
    {
      assert Balanced(s, a);
      OccurrencesDiffer(s.cells, s.dying, s'.cells, s'.dying, s.next, x, a);
      SameCount(multiset(Children(c)), dropped, multiset(Children(s.cells[x].content)), given, a);
    }
    forall y | y in s'.cells && s'.cells[y].content.Struct?
      ensures MembersOk(s'.cells, s'.cells[y].content.members)
    {
      TextsKept(s, x, s', s'.cells[y].content.members);
    }
  }

  lemma SameCount(p: multiset<Addr>, q: multiset<Addr>, r: multiset<Addr>, t: multiset<Addr>, a: Addr)
    requires p + q == r + t
    ensures p[a] + q[a] == r[a] + t[a]
  {
    assert (p + q)[a] == (r + t)[a];
  }

  lemma TextsKept(s: State, x: Addr, s': State, ms: seq<Member>)
    requires MembersOk(s.cells, ms) && x in s.cells && !IsString(s.cells[x].content)
    requires forall y :: y in s.cells && y != x ==> y in s'.cells && s'.cells[y].content == s.cells[y].content
    ensures MembersOk(s'.cells, ms)
  {
    forall i | 0 <= i < |ms|
      ensures IsText(s'.cells, ms[i].key) && TextAt(s'.cells, ms[i].key) == TextAt(s.cells, ms[i].key)
    {}
  }

  // ----- reachability -----

  ghost predicate RefersTo(cells: Cells, x: Addr, y: Addr) {
    x in cells && y in Children(cells[x].content)
  }

  /** Each step goes from a container to something it refers to. */
  ghost predicate IsPath(cells: Cells, p: seq<Addr>) {
    p != [] && forall i, j :: 0 <= i < j < |p| && j == i + 1 ==> RefersTo(cells, p[i], p[j])
  }

  ghost predicate PathBetween(cells: Cells, p: seq<Addr>, x: Addr, y: Addr) {
    IsPath(cells, p) && p[0] == x && p[|p| - 1] == y
  }

  ghost predicate Reaches(cells: Cells, x: Addr, y: Addr) {
    exists p :: PathBetween(cells, p, x, y)
  }

  lemma ReachesSelf(cells: Cells, x: Addr)
    ensures Reaches(cells, x, x)
  {
    assert PathBetween(cells, [x], x, x);
  }

  lemma ReachesStep(cells: Cells, x: Addr, y: Addr, z: Addr)
    requires x in cells && y in Children(cells[x].content) && Reaches(cells, y, z)
    ensures Reaches(cells, x, z)
  {
    var p :| PathBetween(cells, p, y, z);
    PathPrefixed(cells, x, p);
    assert PathBetween(cells, [x] + p, x, z);
  }

  lemma ReachesOn(cells: Cells, x: Addr, y: Addr, z: Addr)
    requires Reaches(cells, x, y) && y in cells && z in Children(cells[y].content)
    ensures Reaches(cells, x, z)
  {
    var p :| PathBetween(cells, p, x, y);
    PathExtended(cells, p, z);
    assert PathBetween(cells, p + [z], x, z);
  }

  /** A value is live exactly when somebody outside can get to it. */
  ghost predicate Held(s: State, a: Addr) {
    exists r :: s.held[r] > 0 && Reaches(s.cells, r, a)
  }

  /** The largest rank in use. */
  ghost function TopRank(cells: Cells, rank: Addr -> nat, n: nat): nat {
    if n == 0 then 0
    else
      var t := TopRank(cells, rank, n - 1);
      if rank(n - 1) > t then rank(n - 1) else t
  }

  lemma {:induction false} RankBelowTop(cells: Cells, rank: Addr -> nat, n: nat, a: Addr)
    requires a < n
    ensures rank(a) <= TopRank(cells, rank, n)
  {
    if a < n - 1 {
      RankBelowTop(cells, rank, n - 1, a);
    }
  }

  lemma {:induction false} LiveIsHeld(s: State, a: Addr)
    requires Consistent(s) && s.dying == {} && a in s.cells
    ensures Held(s, a)
    decreases TopRank(s.cells, s.rank, s.next) - s.rank(a)
  {
    assert Balanced(s, a);
    if s.held[a] > 0 {
      ReachesSelf(s.cells, a);
    } else {
      var y := FindOwner(s.cells, s.dying, s.next, a);
      RankBelowTop(s.cells, s.rank, s.next, y);
      LiveIsHeld(s, y);
      var r :| s.held[r] > 0 && Reaches(s.cells, r, y);
      ReachesOn(s.cells, r, y, a);
    }
  }

  lemma {:induction false} PathStaysLive(s: State, p: seq<Addr>)
    requires Consistent(s) && s.dying == {} && IsPath(s.cells, p) && p[0] in s.cells
    ensures p[|p| - 1] in s.cells
    decreases |p|
  {
    if |p| > 1 {
      PathShortened(s.cells, p);
      PathStaysLive(s, p[..|p| - 1]);
      ChildIsLive(s, p[|p| - 2], p[|p| - 1]);
    }
  }

  /** No leak and no dangling pointer: the live values are those reachable from an outside reference. */
  lemma LiveExactlyHeld(s: State, a: Addr)
    requires Consistent(s) && s.dying == {}
    ensures a in s.cells <==> Held(s, a)
  {
    if a in s.cells {
      LiveIsHeld(s, a);
    }
    if Held(s, a) {
      var r :| s.held[r] > 0 && Reaches(s.cells, r, a);
      var p :| PathBetween(s.cells, p, r, a);
      assert Balanced(s, r);
      PathStaysLive(s, p);
    }
  }

  /** Two heaps that agree on contents wherever both have a cell. */
  ghost predicate SameContents(c: Cells, c': Cells) {
    forall a :: a in c && a in c' ==> c[a].content == c'[a].content
  }

  lemma {:induction false} PathCarriesOver(s: State, s': State, p: seq<Addr>)
    requires Consistent(s') && s'.dying == {} && SameContents(s.cells, s'.cells)
    requires IsPath(s.cells, p) && p[0] in s'.cells
    ensures p[|p| - 1] in s'.cells
    decreases |p|
  {
    if |p| > 1 {
      PathShortened(s.cells, p);
      PathCarriesOver(s, s', p[..|p| - 1]);
      ChildIsLive(s', p[|p| - 2], p[|p| - 1]);
    }
  }

  lemma LiveCarriesOver(s: State, s': State, a: Addr)
    requires Consistent(s) && s.dying == {} && Consistent(s') && s'.dying == {}
    requires s.held == s'.held && SameContents(s.cells, s'.cells) && a in s.cells
    ensures a in s'.cells
  {
    LiveIsHeld(s, a);
    var r :| s.held[r] > 0 && Reaches(s.cells, r, a);
    var p :| PathBetween(s.cells, p, r, a);
    assert Balanced(s', r);
    PathCarriesOver(s, s', p);
  }

  /**
    The heap is determined by the outside references and by the contents: whatever was allocated and
    released in between, no cell is left over, none is missing and every count is restored.
  */
  lemma Determined(s: State, s': State)
    requires Consistent(s) && s.dying == {} && Consistent(s') && s'.dying == {}
    requires s.held == s'.held && SameContents(s.cells, s'.cells)
    ensures s.cells == s'.cells
  {
    forall a
      ensures a in s.cells <==> a in s'.cells
    {
      if a in s.cells { LiveCarriesOver(s, s', a); }
      if a in s'.cells { LiveCarriesOver(s', s, a); }
    }
    var n := s.next + s'.next;
    forall a | a in s.cells
      ensures s.cells[a] == s'.cells[a]
    {
      assert Balanced(s, a) && Balanced(s', a);
      OccurrencesBeyond(s.cells, {}, s.next, n, a);
      OccurrencesBeyond(s'.cells, {}, s'.next, n, a);
      OccurrencesEqual(s.cells, {}, s'.cells, {}, n, a);
    }
  }

  // ----- acyclicity -----

  ghost predicate Acyclic(cells: Cells) {
    exists rank: Addr -> nat :: Ranked(cells, rank)
  }

  lemma {:induction false} RankFalls(cells: Cells, rank: Addr -> nat, p: seq<Addr>)
    requires Ranked(cells, rank) && IsPath(cells, p)
    ensures rank(p[|p| - 1]) + |p| <= rank(p[0]) + 1
    decreases |p|
  {
    if |p| > 1 {
      PathShortened(cells, p);
      RankFalls(cells, rank, p[..|p| - 1]);
    }
  }

  function RankSum(rank: Addr -> nat, gained: seq<Addr>): nat {
    if gained == [] then 0 else RankSum(rank, gained[1..]) + rank(gained[0])
  }

  lemma {:induction false} RankBelowSum(rank: Addr -> nat, gained: seq<Addr>, i: nat)
    requires i < |gained|
    ensures rank(gained[i]) <= RankSum(rank, gained)
  {
    if i > 0 {
      RankBelowSum(rank, gained[1..], i - 1);
    }
  }

  /** The ranks after container `x` has gained some references. */
  ghost function Reranked(cells: Cells, rank: Addr -> nat, x: Addr, gained: seq<Addr>): Addr -> nat {
    (a: Addr) => if Reaches(cells, a, x) then rank(a) + RankSum(rank, gained) + 1 else rank(a)
  }

  lemma PathSuffix(cells: Cells, p: seq<Addr>, k: nat)
    requires IsPath(cells, p) && k < |p|
    ensures IsPath(cells, p[k..])
  {
    var q := p[k..];
    forall i, j | 0 <= i < j < |q| && j == i + 1
      ensures RefersTo(cells, q[i], q[j])
    {
      assert RefersTo(cells, p[k + i], p[k + j]);
    }
  }

  lemma PathExtended(cells: Cells, p: seq<Addr>, z: Addr)
    requires IsPath(cells, p) && RefersTo(cells, p[|p| - 1], z)
    ensures IsPath(cells, p + [z])
  {
    var q := p + [z];
    forall i, j | 0 <= i < j < |q| && j == i + 1
      ensures RefersTo(cells, q[i], q[j])
    {
      if j < |p| { assert RefersTo(cells, p[i], p[j]); }
    }
  }

  lemma PathPrefixed(cells: Cells, x: Addr, p: seq<Addr>)
    requires IsPath(cells, p) && RefersTo(cells, x, p[0])
    ensures IsPath(cells, [x] + p)
  {
    var q := [x] + p;
    forall i, j | 0 <= i < j < |q| && j == i + 1
      ensures RefersTo(cells, q[i], q[j])
    {
      if i > 0 { assert RefersTo(cells, p[i - 1], p[j - 1]); }
    }
  }

  lemma PathShortened(cells: Cells, p: seq<Addr>)
    requires IsPath(cells, p) && |p| > 1
    ensures IsPath(cells, p[..|p| - 1]) && RefersTo(cells, p[|p| - 2], p[|p| - 1])
  {
    var q := p[..|p| - 1];
    forall i, j | 0 <= i < j < |q| && j == i + 1
      ensures RefersTo(cells, q[i], q[j])
    {
      assert RefersTo(cells, p[i], p[j]);
    }
  }

  /** A path to `x` uses no reference out of `x`, so it survives a change of that container. */
  lemma PathAvoidsEnd(cells: Cells, rank: Addr -> nat, p: seq<Addr>, x: Addr, cells': Cells)
    requires Ranked(cells, rank) && IsPath(cells, p) && p[|p| - 1] == x
    requires cells'.Keys == cells.Keys
    requires forall a :: a in cells && a != x ==> cells'[a].content == cells[a].content
    ensures IsPath(cells', p)
  {
    forall i, j | 0 <= i < j < |p| && j == i + 1
      ensures RefersTo(cells', p[i], p[j])
    {
      assert RefersTo(cells, p[i], p[j]);
      PathSuffix(cells, p, i);
      RankFalls(cells, rank, p[i..]);
    }
  }

  /** Container `x` gained the references in `gained` and perhaps lost others; nothing else changed. */
  ghost predicate Gains(cells: Cells, x: Addr, gained: seq<Addr>, cells': Cells) {
    && x in cells
    && cells'.Keys == cells.Keys
    && (forall a :: a in cells && a != x ==> cells'[a].content == cells[a].content)
    && (forall g :: g in gained ==> g in Children(cells'[x].content))
    && forall y :: y in Children(cells'[x].content) ==> y in gained || y in Children(cells[x].content)
  }

  lemma AttachRanked(cells: Cells, rank: Addr -> nat, x: Addr, gained: seq<Addr>, cells': Cells)
    requires Ranked(cells, rank) && Gains(cells, x, gained, cells')
    requires forall g :: g in gained ==> !Reaches(cells, g, x)
    ensures Ranked(cells', Reranked(cells, rank, x, gained))
  {
    var r := Reranked(cells, rank, x, gained);
    ReachesSelf(cells, x);
    forall a, y | a in cells' && y in Children(cells'[a].content)
      ensures r(y) < r(a)
    {
      if a == x && y in gained {
        var i :| 0 <= i < |gained| && gained[i] == y;
        RankBelowSum(rank, gained, i);
      } else if Reaches(cells, y, x) {
        ReachesStep(cells, a, y, x);
      }
    }
  }

  lemma AttachCycle(cells: Cells, rank: Addr -> nat, x: Addr, gained: seq<Addr>, g: Addr, cells': Cells)
    requires Ranked(cells, rank) && Gains(cells, x, gained, cells') && g in gained && Reaches(cells, g, x)
    ensures !Acyclic(cells')
  {
    var p :| PathBetween(cells, p, g, x);
    forall rank': Addr -> nat | Ranked(cells', rank')
      ensures false
    {
      PathAvoidsEnd(cells, rank, p, x, cells');
      RankFalls(cells', rank', p);
    }
  }

  /** A container may gain references without closing a cycle exactly when none of them reaches it. */
  lemma AttachAcyclic(cells: Cells, rank: Addr -> nat, x: Addr, gained: seq<Addr>, cells': Cells)
    requires Ranked(cells, rank) && Gains(cells, x, gained, cells')
    ensures Acyclic(cells') <==> forall g :: g in gained ==> !Reaches(cells, g, x)
  {
    if g :| g in gained && Reaches(cells, g, x) {
      AttachCycle(cells, rank, x, gained, g, cells');
    } else {
      AttachRanked(cells, rank, x, gained, cells');
    }
  }

  lemma ReachesSame(cells: Cells, cells': Cells, x: Addr, y: Addr)
    requires Shrunk(cells, cells') && cells'.Keys == cells.Keys
    ensures Reaches(cells, x, y) <==> Reaches(cells', x, y)
  {
    if p :| PathBetween(cells, p, x, y) {
      PathCarried(cells, p, cells');
      assert PathBetween(cells', p, x, y);
    }
    if p :| PathBetween(cells', p, x, y) {
      PathCarried(cells', p, cells);
      assert PathBetween(cells, p, x, y);
    }
  }

  // ----- what a release frees -----

  /** What the values are, apart from their counts. */
  function ContentsOf(cells: Cells): map<Addr, Content> {
    map a | a in cells :: cells[a].content
  }

  /** `later` has lost cells and changed counts, but no contents. */
  ghost predicate Shrunk(cells: Cells, later: Cells) {
    forall a :: a in later ==> a in cells && later[a].content == cells[a].content
  }

  /** Some values have been freed, none of which ranked above `top`. */
  ghost predicate Collected(s: State, later: State, top: int) {
    && later.next == s.next && later.rank == s.rank
    && Shrunk(s.cells, later.cells)
    && forall a :: a in s.cells && s.rank(a) > top ==> a in later.cells
  }

  lemma CollectedStep(s: State, mid: State, later: State, low: int, top: int)
    requires Collected(s, mid, top) && Collected(mid, later, low) && low <= top
    ensures Collected(s, later, top)
  {}

  lemma HeldIsLive(s: State, v: Addr)
    requires Consistent(s) && s.held[v] > 0
    ensures v in s.cells && v !in s.dying && s.cells[v].refs > 0
  {
    assert Balanced(s, v);
  }

  /** A release frees exactly the values that the remaining outside references no longer reach. */
  lemma SurvivorsAreReachable(s: State, s': State, a: Addr)
    requires Consistent(s) && s.dying == {} && Consistent(s') && s'.dying == {}
    requires Shrunk(s.cells, s'.cells) && forall r :: s'.held[r] > 0 ==> s.held[r] > 0
    ensures a in s'.cells <==> exists r :: s'.held[r] > 0 && Reaches(s.cells, r, a)
  {
    if a in s'.cells {
      LiveIsHeld(s', a);
      var r :| s'.held[r] > 0 && Reaches(s'.cells, r, a);
      var p :| PathBetween(s'.cells, p, r, a);
      PathCarried(s'.cells, p, s.cells);
      assert PathBetween(s.cells, p, r, a);
    }
    if r :| s'.held[r] > 0 && Reaches(s.cells, r, a) {
      var p :| PathBetween(s.cells, p, r, a);
      assert Balanced(s', r);
      PathCarriesOver(s, s', p);
    }
  }

  lemma PathCarried(cells: Cells, p: seq<Addr>, cells': Cells)
    requires IsPath(cells, p) && Shrunk(cells', cells)
    ensures IsPath(cells', p)
  {
    forall i, j | 0 <= i < j < |p| && j == i + 1
      ensures RefersTo(cells', p[i], p[j])
    {
      assert RefersTo(cells, p[i], p[j]);
    }
  }

  // ----- structs as maps -----

  /** Plain search for a key: the index of its member, or the number of members. */
  ghost function Position(cells: Cells, ms: seq<Member>, key: seq<byte>): (i: nat)
    requires MembersOk(cells, ms)
    ensures i <= |ms|
    ensures i < |ms| ==> TextAt(cells, ms[i].key) == key
    ensures i == |ms| ==> forall j :: 0 <= j < |ms| ==> TextAt(cells, ms[j].key) != key
  {
    if j :| 0 <= j < |ms| && TextAt(cells, ms[j].key) == key then j else |ms|
  }

  /** The struct as a finite map from keys to values. */
  ghost function AsMap(cells: Cells, ms: seq<Member>): map<seq<byte>, Addr>
    requires MembersOk(cells, ms)
  {
    map i | 0 <= i < |ms| :: TextAt(cells, ms[i].key) := ms[i].value
  }

  /** A member's value is replaced in place, or a new member goes to the end. */
  ghost function WithMember(cells: Cells, ms: seq<Member>, k: Addr, v: Addr): seq<Member>
    requires MembersOk(cells, ms) && IsText(cells, k)
  {
    var i := Position(cells, ms, TextAt(cells, k));
    if i < |ms| then ms[i := ms[i].(value := v)] else ms + [Member(Hash(TextAt(cells, k)), k, v)]
  }

  lemma WithMemberOk(cells: Cells, ms: seq<Member>, k: Addr, v: Addr)
    requires MembersOk(cells, ms) && IsText(cells, k)
    ensures MembersOk(cells, WithMember(cells, ms, k, v))
  {}

  lemma AsMapHas(cells: Cells, ms: seq<Member>, i: nat)
    requires MembersOk(cells, ms) && i < |ms|
    ensures TextAt(cells, ms[i].key) in AsMap(cells, ms)
    ensures AsMap(cells, ms)[TextAt(cells, ms[i].key)] == ms[i].value
  {}

  lemma AsMapOnly(cells: Cells, ms: seq<Member>, t: seq<byte>) returns (i: nat)
    requires MembersOk(cells, ms) && t in AsMap(cells, ms)
    ensures i < |ms| && TextAt(cells, ms[i].key) == t
  {
    i :| 0 <= i < |ms| && TextAt(cells, ms[i].key) == t;
  }

  /** What the map view of a struct holds for a key. */
  ghost function Lookup(cells: Cells, ms: seq<Member>, key: seq<byte>): Option<Addr>
    requires MembersOk(cells, ms)
  {
    var m := AsMap(cells, ms);
    if key in m then Some(m[key]) else None
  }

  lemma LookupAtPosition(cells: Cells, ms: seq<Member>, key: seq<byte>)
    requires MembersOk(cells, ms)
    ensures var i := Position(cells, ms, key);
            Lookup(cells, ms, key) == if i < |ms| then Some(ms[i].value) else None
  {
    var i := Position(cells, ms, key);
    if i < |ms| {
      AsMapHas(cells, ms, i);
    } else if key in AsMap(cells, ms) {
      var j := AsMapOnly(cells, ms, key);
    }
  }

  /** Setting a member updates the map at that key and nowhere else. */
  lemma WithMemberUpdates(cells: Cells, ms: seq<Member>, k: Addr, v: Addr)
    requires MembersOk(cells, ms) && IsText(cells, k)
    ensures MembersOk(cells, WithMember(cells, ms, k, v))
    ensures AsMap(cells, WithMember(cells, ms, k, v)) == AsMap(cells, ms)[TextAt(cells, k) := v]
  {
    WithMemberOk(cells, ms, k, v);
    var after := WithMember(cells, ms, k, v);
    var key := TextAt(cells, k);
    var n := Position(cells, ms, key);
    var left, right := AsMap(cells, after), AsMap(cells, ms)[key := v];
    hide AsMap;
    AsMapHas(cells, after, n);
    forall t | t in left
      ensures t in right && left[t] == right[t]
    {
      var i := AsMapOnly(cells, after, t);
      AsMapHas(cells, after, i);
      if i != n { AsMapHas(cells, ms, i); }
    }
    forall t | t in right
      ensures t in left
    {
      if t != key {
        var i := AsMapOnly(cells, ms, t);
        AsMapHas(cells, after, i);
      }
    }
  }

  /** The struct at `x` has member `k` set to `v`; what else happened is that values were freed. */
  ghost predicate IsMemberSet(cells: Cells, x: Addr, k: Addr, v: Addr, cells': Cells) {
    && x in cells && cells[x].content.Struct? && IsText(cells, k) && MembersOk(cells, cells[x].content.members)
    && var ms := cells[x].content.members;
    && x in cells' && cells'[x].content == Struct(WithMember(cells, ms, k, v))
    && (forall a :: a in cells' && a != x ==> a in cells && cells'[a].content == cells[a].content)
    && (Position(cells, ms, TextAt(cells, k)) == |ms| ==> cells'.Keys == cells.Keys)
  }

  /** An old child of a container that gains references still ranks below it. */
  lemma OldChildRanksLower(cells: Cells, rank: Addr -> nat, x: Addr, gained: seq<Addr>, y: Addr)
    requires Ranked(cells, rank) && x in cells && y in Children(cells[x].content)
    ensures Reranked(cells, rank, x, gained)(y) < Reranked(cells, rank, x, gained)(x)
  {
    ReachesSelf(cells, x);
  }
}
