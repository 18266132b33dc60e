/** Which value a cell of the heap stands for. */
module Denotation {
  import opened Values
  import opened HeapState

  /** The value at `a` is `v`, and everything it consists of lies at addresses from `lo` on. */
  ghost predicate Denotes(cells: Cells, lo: Addr, a: Addr, v: Value)
    decreases v
  {
    && a in cells && lo <= a
    && match v
       case Atom(scalar) => cells[a].content == Leaf(scalar)
       case ArrayOf(vs) =>
         && cells[a].content.Array? && |cells[a].content.items| == |vs|
         && forall i :: 0 <= i < |vs| ==> Denotes(cells, lo, cells[a].content.items[i], vs[i])
       case StructOf(es) =>
         && cells[a].content.Struct? && |cells[a].content.members| == |es|
         && forall i :: 0 <= i < |es| ==> MemberDenotes(cells, lo, cells[a].content.members[i], es[i])
  }

  ghost predicate MemberDenotes(cells: Cells, lo: Addr, m: Member, e: Entry)
    decreases e
  {
    && lo <= m.key && IsText(cells, m.key) && TextAt(cells, m.key) == e.key
    && Denotes(cells, lo, m.value, e.value)
  }

  /** Only the contents at those addresses matter. */
  lemma {:induction false} DenotesKept(cells: Cells, lo: Addr, a: Addr, v: Value, cells': Cells, lo': Addr)
    requires Denotes(cells, lo, a, v) && lo' <= lo
    requires forall x :: x in cells && lo <= x ==> x in cells' && cells'[x].content == cells[x].content
    ensures Denotes(cells', lo', a, v)
    decreases v
  {
    match v {
      case Atom(_) =>
      case ArrayOf(vs) =>
        forall i | 0 <= i < |vs|
          ensures Denotes(cells', lo', cells'[a].content.items[i], vs[i])
        {
          DenotesKept(cells, lo, cells[a].content.items[i], vs[i], cells', lo');
        }
      case StructOf(es) =>
        forall i | 0 <= i < |es|
          ensures MemberDenotes(cells', lo', cells'[a].content.members[i], es[i])
        {
          assert MemberDenotes(cells, lo, cells[a].content.members[i], es[i]);
          DenotesKept(cells, lo, cells[a].content.members[i].value, es[i].value, cells', lo');
        }
    }
  }

  /** A cell stands for one value only. */
  lemma {:induction false} DenotesOne(cells: Cells, lo: Addr, a: Addr, v: Value, w: Value)
    requires Denotes(cells, lo, a, v) && Denotes(cells, lo, a, w)
    ensures v == w
    decreases v
  {
    match v {
      case Atom(_) =>
      case ArrayOf(vs) =>
        forall i | 0 <= i < |vs|
          ensures vs[i] == w.items[i]
        {
          DenotesOne(cells, lo, cells[a].content.items[i], vs[i], w.items[i]);
        }
      case StructOf(es) =>
        forall i | 0 <= i < |es|
          ensures es[i] == w.entries[i]
        {
          var m := cells[a].content.members[i];
          assert MemberDenotes(cells, lo, m, es[i]) && MemberDenotes(cells, lo, m, w.entries[i]);
          DenotesOne(cells, lo, m.value, es[i].value, w.entries[i].value);
        }
    }
  }

  /** Because references never form a cycle, every live cell stands for a value. */
  ghost function ValueAt(s: State, a: Addr): Value
    requires Consistent(s) && s.dying == {} && a in s.cells
    decreases s.rank(a)
  {
    match s.cells[a].content
    case Leaf(scalar) => Atom(scalar)
    case Array(items) =>
      ArrayOf(seq(|items|, i requires 0 <= i < |items| =>
        (ChildIsLive(s, a, items[i]); ValueAt(s, items[i]))))
    case Struct(ms) =>
      StructOf(seq(|ms|, i requires 0 <= i < |ms| =>
        (MemberIsLive(s, a, i); Entry(TextAt(s.cells, ms[i].key), ValueAt(s, ms[i].value)))))
  }

  lemma MemberIsLive(s: State, a: Addr, i: nat)
    requires Consistent(s) && s.dying == {} && a in s.cells && s.cells[a].content.Struct?
    requires i < |s.cells[a].content.members|
    ensures var m := s.cells[a].content.members[i];
            IsText(s.cells, m.key) && m.value in s.cells && s.rank(m.value) < s.rank(a)
  {
    var ms := s.cells[a].content.members;
    MemberRefsHas(ms, i);
    ChildIsLive(s, a, ms[i].value);
    assert MembersOk(s.cells, ms);
  }

  lemma {:induction false} ValueAtDenotes(s: State, a: Addr)
    requires Consistent(s) && s.dying == {} && a in s.cells
    ensures Denotes(s.cells, 0, a, ValueAt(s, a))
    decreases s.rank(a)
  {
    match s.cells[a].content {
      case Leaf(_) =>
      case Array(items) =>
        forall i | 0 <= i < |items|
          ensures Denotes(s.cells, 0, items[i], ValueAt(s, a).items[i])
        {
          ChildIsLive(s, a, items[i]);
          ValueAtDenotes(s, items[i]);
        }
      case Struct(ms) =>
        forall i | 0 <= i < |ms|
          ensures MemberDenotes(s.cells, 0, ms[i], ValueAt(s, a).entries[i])
        {
          MemberIsLive(s, a, i);
          ValueAtDenotes(s, ms[i].value);
        }
    }
  }

  /** From a value built at addresses from `lo` on, no reference leads below `lo`. */
  lemma {:induction false} DenotesReaches(cells: Cells, lo: Addr, a: Addr, v: Value, p: seq<Addr>)
    requires Denotes(cells, lo, a, v) && IsPath(cells, p) && p[0] == a
    ensures p[|p| - 1] >= lo
    decreases v
  {
    if |p| > 1 {
      assert RefersTo(cells, p[0], p[1]);
      PathSuffix(cells, p, 1);
      match v {
        case Atom(_) =>
        case ArrayOf(vs) =>
          var i :| 0 <= i < |vs| && cells[a].content.items[i] == p[1];
          DenotesReaches(cells, lo, p[1], vs[i], p[1..]);
        case StructOf(es) =>
          var i := ChildOfMember(cells[a].content.members, p[1]);
          var m := cells[a].content.members[i];
          assert MemberDenotes(cells, lo, m, es[i]);
          if m.value == p[1] {
            DenotesReaches(cells, lo, p[1], es[i].value, p[1..]);
          } else {
            TextEndsPath(cells, p[1..]);
          }
      }
    }
  }

  lemma TextEndsPath(cells: Cells, p: seq<Addr>)
    requires p != [] && IsText(cells, p[0])
    ensures IsPath(cells, p) <==> |p| == 1
  {
    if |p| > 1 {
      assert !RefersTo(cells, p[0], p[1]);
    }
  }

  lemma {:induction false} ChildOfMember(ms: seq<Member>, c: Addr) returns (i: nat)
    requires c in MemberRefs(ms)
    ensures i < |ms| && (ms[i].key == c || ms[i].value == c)
  {
    var n := |ms| - 1;
    if ms[n].key == c || ms[n].value == c {
      i := n;
    } else {
      i := ChildOfMember(ms[..n], c);
    }
  }

  lemma DenotesApart(cells: Cells, lo: Addr, a: Addr, v: Value, x: Addr)
    requires Denotes(cells, lo, a, v) && x < lo
    ensures !Reaches(cells, a, x)
  {
    if p :| PathBetween(cells, p, a, x) {
      DenotesReaches(cells, lo, a, v, p);
    }
  }
}
