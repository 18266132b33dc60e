/**
  Building an element tree from the events that an XML parser reports.

  The parser promises only this much: tags come in document order and nest, text is reported between
  the tags where it stands, and it may be cut into any number of nonempty pieces.
*/
module XmlTree {
  import opened Bytes
  import opened Outcomes
  import opened Sequences

  datatype Elem = Elem(name: string, cdata: seq<byte>, children: seq<Elem>)

  datatype Event = StartTag(name: string) | EndTag(name: string) | Chars(text: seq<byte>)

  // ----- documents, their events and their trees -----

  datatype Markup = Text(text: seq<byte>) | Tag(name: string, content: seq<Markup>)

  function Events(m: Markup): seq<Event> {
    match m
    case Text(text) => [Chars(text)]
    case Tag(name, content) => [StartTag(name)] + AllEvents(content) + [EndTag(name)]
  }

  function AllEvents(ms: seq<Markup>): seq<Event> {
    if ms == [] then [] else Events(ms[0]) + AllEvents(ms[1..])
  }

  /** The text of an element is what stands directly in it, around its children. */
  function TextOf(ms: seq<Markup>): seq<byte> {
    if ms == [] then [] else (if ms[0].Text? then ms[0].text else []) + TextOf(ms[1..])
  }

  function ElementsOf(ms: seq<Markup>): seq<Elem> {
    if ms == [] then [] else (if ms[0].Tag? then [TreeOf(ms[0])] else []) + ElementsOf(ms[1..])
  }

  function TreeOf(m: Markup): Elem
    requires m.Tag?
  {
    Elem(m.name, TextOf(m.content), ElementsOf(m.content))
  }

  // ----- the abstract builder -----

  /** The open elements from the root down, each without the child that is still open; later the root. */
  datatype Build = Build(open: seq<Elem>, root: Option<Elem>)

  const EMPTY := Build([], None)

  predicate Allowed(b: Build, e: Event) {
    match e
    case StartTag(_) => b.root.None?
    case EndTag(name) => b.open != [] && name == b.open[|b.open| - 1].name
    case Chars(_) => b.open != []
  }

  function WithChild(parent: Elem, child: Elem): Elem {
    parent.(children := parent.children + [child])
  }

  function WithText(e: Elem, text: seq<byte>): Elem {
    e.(cdata := e.cdata + text)
  }

  function OnTop(open: seq<Elem>, top: Elem): seq<Elem>
    requires open != []
  {
    open[..|open| - 1] + [top]
  }

  function Close(open: seq<Elem>): Build
    requires open != []
  {
    var n := |open| - 1;
    if n == 0 then Build([], Some(open[0]))
    else Build(OnTop(open[..n], WithChild(open[n - 1], open[n])), None)
  }

  function Step(b: Build, e: Event): Build
    requires Allowed(b, e)
  {
    match e
    case StartTag(name) => Build(b.open + [Elem(name, [], [])], None)
    case EndTag(_) => Close(b.open)
    case Chars(text) => b.(open := OnTop(b.open, WithText(b.open[|b.open| - 1], text)))
  }

  /** None when some event comes where the parser would not report it. */
  function Run(b: Build, es: seq<Event>): Option<Build>
    decreases |es|
  {
    if es == [] then Some(b)
    else if !Allowed(b, es[0]) then None
    else Run(Step(b, es[0]), es[1..])
  }

  lemma {:induction false} RunOn(b: Build, es: seq<Event>, rest: seq<Event>)
    ensures Run(b, es + rest) == match Run(b, es) case None => None case Some(mid) => Run(mid, rest)
    decreases |es|
  {
    if es == [] {
      assert es + rest == rest;
    } else {
      assert (es + rest)[1..] == es[1..] + rest;
      if Allowed(b, es[0]) {
        RunOn(Step(b, es[0]), es[1..], rest);
      }
    }
  }

  // ----- a document's events build its tree -----

  /** The innermost open element after some content has been read into it. */
  function Grown(e: Elem, ms: seq<Markup>): Elem {
    Elem(e.name, e.cdata + TextOf(ms), e.children + ElementsOf(ms))
  }

  lemma GrownBy(e: Elem, m: Markup, ms: seq<Markup>)
    ensures m.Text? ==> Grown(WithText(e, m.text), ms) == Grown(e, [m] + ms)
    ensures m.Tag? ==> Grown(WithChild(e, TreeOf(m)), ms) == Grown(e, [m] + ms)
  {
    assert ([m] + ms)[1..] == ms;
    if m.Text? {
      ConcatAssociative(e.cdata, m.text, TextOf(ms));
      assert [] + ElementsOf(ms) == ElementsOf(ms);
    } else {
      ConcatAssociative(e.children, [TreeOf(m)], ElementsOf(ms));
      assert [] + TextOf(ms) == TextOf(ms);
    }
  }

  lemma {:induction false} RunContent(open: seq<Elem>, ms: seq<Markup>)
    requires open != []
    ensures Run(Build(open, None), AllEvents(ms)) == Some(Build(OnTop(open, Grown(open[|open| - 1], ms)), None))
    decreases ms
  {
    var top := open[|open| - 1];
    if ms == [] {
      assert Grown(top, ms) == top;
      assert OnTop(open, top) == open;
    } else {
      var m := ms[0];
      assert ms == [m] + ms[1..];
      RunOn(Build(open, None), Events(m), AllEvents(ms[1..]));
      GrownBy(top, m, ms[1..]);
      var next := if m.Text? then WithText(top, m.text) else WithChild(top, TreeOf(m));
      if m.Text? {
        assert Run(Build(open, None), Events(m)) == Some(Build(OnTop(open, next), None));
      } else {
        RunTag(open, m);
      }
      RunContent(OnTop(open, next), ms[1..]);
      assert OnTop(OnTop(open, next), Grown(next, ms[1..])) == OnTop(open, Grown(next, ms[1..]));
    }
  }

  lemma {:induction false} RunTag(open: seq<Elem>, m: Markup)
    requires m.Tag?
    ensures Run(Build(open, None), Events(m)) == Some(Close(open + [TreeOf(m)]))
    decreases m
  {
    var inner := Elem(m.name, [], []);
    var es := AllEvents(m.content);
    RunContent(open + [inner], m.content);
    assert Grown(inner, m.content) == TreeOf(m);
    assert OnTop(open + [inner], TreeOf(m)) == open + [TreeOf(m)];
    RunOn(Build(open + [inner], None), es, [EndTag(m.name)]);
    assert Events(m)[1..] == es + [EndTag(m.name)];
    assert Run(Build(open + [TreeOf(m)], None), [EndTag(m.name)]) == Some(Close(open + [TreeOf(m)]));
  }

  // ----- how the text is cut does not matter -----

  function OneByOne(text: seq<byte>): seq<Event> {
    if text == [] then [] else [Chars([text[0]])] + OneByOne(text[1..])
  }

  /** The same events with the text reported byte by byte. */
  function Singles(es: seq<Event>): seq<Event> {
    if es == [] then []
    else (if es[0].Chars? then OneByOne(es[0].text) else [es[0]]) + Singles(es[1..])
  }

  lemma {:induction false} RunOneByOne(b: Build, text: seq<byte>)
    requires b.open != []
    ensures Run(b, OneByOne(text)) == Some(Step(b, Chars(text)))
    decreases |text|
  {
    var top := b.open[|b.open| - 1];
    if text == [] {
      assert WithText(top, text) == top;
      assert OnTop(b.open, top) == b.open;
    } else {
      var b1 := Step(b, Chars([text[0]]));
      assert OneByOne(text)[1..] == OneByOne(text[1..]);
      RunOneByOne(b1, text[1..]);
      assert text == [text[0]] + text[1..];
      ConcatAssociative(top.cdata, [text[0]], text[1..]);
      assert OnTop(b1.open, WithText(top, text)) == OnTop(b.open, WithText(top, text));
    }
  }

  predicate NoEmptyText(es: seq<Event>) {
    forall i :: 0 <= i < |es| && es[i].Chars? ==> es[i].text != []
  }

  lemma {:induction false} RunSingles(b: Build, es: seq<Event>)
    requires NoEmptyText(es) || Run(b, es).Some?
    ensures Run(b, Singles(es)) == Run(b, es)
    decreases |es|
  {
    if es != [] {
      var e := es[0];
      var first := if e.Chars? then OneByOne(e.text) else [e];
      RunOn(b, first, Singles(es[1..]));
      if Allowed(b, e) {
        RunSingles(Step(b, e), es[1..]);
        if e.Chars? {
          RunOneByOne(b, e.text);
        }
      }
    }
  }

  /** However the parser cuts the text of a document, the builder ends with the document's tree. */
  lemma ChunkingDoesNotMatter(m: Markup, es: seq<Event>)
    requires m.Tag? && NoEmptyText(es) && Singles(es) == Singles(Events(m))
    ensures Run(EMPTY, es) == Some(Build([], Some(TreeOf(m))))
  {
    RunTag([], m);
    RunSingles(EMPTY, es);
    RunSingles(EMPTY, Events(m));
  }

  // ----- the event handlers, over linked elements -----

  type Id = nat

  /** An element in memory; its text ends with a NUL once the element has ended. */
  datatype Node = Node(parent: Option<Id>, name: string, cdata: seq<byte>, children: seq<Id>)

  type Nodes = map<Id, Node>

  /** An ended element whose whole subtree lies below address `bound`. */
  ghost predicate Ended(nodes: Nodes, x: Id, bound: Id)
    decreases bound - x
  {
    && x < bound && x in nodes && nodes[x].cdata != []
    && forall i :: 0 <= i < |nodes[x].children| ==>
         x < nodes[x].children[i] && Ended(nodes, nodes[x].children[i], bound)
  }

  /** The element as its accessors show it: the text is without the final NUL. */
  ghost function ElemAt(nodes: Nodes, x: Id, bound: Id): Elem
    requires Ended(nodes, x, bound)
    decreases bound - x
  {
    var n := nodes[x];
    Elem(n.name, n.cdata[..|n.cdata| - 1],
         seq(|n.children|, i requires 0 <= i < |n.children| => ElemAt(nodes, n.children[i], bound)))
  }

  lemma {:induction false} EndedKept(nodes: Nodes, x: Id, bound: Id, nodes': Nodes, bound': Id)
    requires Ended(nodes, x, bound) && bound <= bound'
    requires forall y :: x <= y < bound && y in nodes ==> y in nodes' && nodes'[y] == nodes[y]
    ensures Ended(nodes', x, bound') && ElemAt(nodes', x, bound') == ElemAt(nodes, x, bound)
    decreases bound - x
  {
    var cs := nodes[x].children;
    forall i | 0 <= i < |cs|
      ensures Ended(nodes', cs[i], bound') && ElemAt(nodes', cs[i], bound') == ElemAt(nodes, cs[i], bound)
    {
      EndedKept(nodes, cs[i], bound, nodes', bound');
    }
  }

  ghost predicate AllEnded(nodes: Nodes, x: Id, kids: seq<Id>, bound: Id) {
    forall i :: 0 <= i < |kids| ==> x < kids[i] && Ended(nodes, kids[i], bound)
  }

  ghost function ElemsAt(nodes: Nodes, kids: seq<Id>, bound: Id): seq<Elem>
    requires forall i :: 0 <= i < |kids| ==> Ended(nodes, kids[i], bound)
  {
    seq(|kids|, i requires 0 <= i < |kids| => ElemAt(nodes, kids[i], bound))
  }

  lemma AllKept(nodes: Nodes, x: Id, kids: seq<Id>, bound: Id, nodes': Nodes, bound': Id)
    requires AllEnded(nodes, x, kids, bound) && bound <= bound'
    requires forall y :: x < y < bound && y in nodes ==> y in nodes' && nodes'[y] == nodes[y]
    ensures AllEnded(nodes', x, kids, bound')
    ensures ElemsAt(nodes', kids, bound') == ElemsAt(nodes, kids, bound)
  {
    forall i | 0 <= i < |kids|
      ensures Ended(nodes', kids[i], bound') && ElemAt(nodes', kids[i], bound') == ElemAt(nodes, kids[i], bound)
    {
      EndedKept(nodes, kids[i], bound, nodes', bound');
    }
  }

  /** The linked elements, the bound of the addresses in use, and the open elements from the root down. */
  datatype Arena = Arena(nodes: Nodes, next: Id, root: Option<Id>, path: seq<Id>)

  /** Where the subtrees of the ended children of the i-th open element end. */
  function Bound(a: Arena, i: nat): Id
    requires i < |a.path|
  {
    if i == |a.path| - 1 then a.next else a.path[i + 1]
  }

  /** The ended children of the i-th open element: all of them but the one that is open. */
  function EndedChildren(a: Arena, i: nat): seq<Id>
    requires i < |a.path| && a.path[i] in a.nodes
  {
    var children := a.nodes[a.path[i]].children;
    if i == |a.path| - 1 || children == [] then children else children[..|children| - 1]
  }

  ghost predicate LevelOk(a: Arena, i: nat)
    requires i < |a.path|
  {
    && a.path[i] in a.nodes && a.path[i] < Bound(a, i)
    && a.nodes[a.path[i]].parent == (if i == 0 then None else Some(a.path[i - 1]))
    && AllEnded(a.nodes, a.path[i], EndedChildren(a, i), Bound(a, i))
    && (i < |a.path| - 1 ==>
          var children := a.nodes[a.path[i]].children;
          children != [] && children[|children| - 1] == a.path[i + 1])
  }

  ghost predicate ArenaOk(a: Arena) {
    && (forall x :: x in a.nodes ==> x < a.next)
    && (forall i :: 0 <= i < |a.path| ==> LevelOk(a, i))
    && (a.path != [] ==> a.root == Some(a.path[0]))
    && (a.path == [] && a.root.Some? ==> Ended(a.nodes, a.root.value, a.next))
  }

  ghost function OpenElem(a: Arena, i: nat): Elem
    requires i < |a.path| && LevelOk(a, i)
  {
    var n := a.nodes[a.path[i]];
    Elem(n.name, n.cdata, ElemsAt(a.nodes, EndedChildren(a, i), Bound(a, i)))
  }

  ghost function View(a: Arena): Build
    requires ArenaOk(a)
  {
    Build(seq(|a.path|, i requires 0 <= i < |a.path| => OpenElem(a, i)),
          if a.path == [] && a.root.Some? then Some(ElemAt(a.nodes, a.root.value, a.next)) else None)
  }

  /** A level whose open child stays on the path does not notice changes at or below the innermost element. */
  lemma LevelKept(a: Arena, a': Arena, k: nat, i: nat)
    requires ArenaOk(a) && i < k < |a.path| && k < |a'.path|
    requires a'.path[..k + 1] == a.path[..k + 1]
    requires var low := a.path[|a.path| - 1];
             forall y :: y < low && y in a.nodes ==> y in a'.nodes && a'.nodes[y] == a.nodes[y]
    ensures LevelOk(a, i) && LevelOk(a', i) && OpenElem(a', i) == OpenElem(a, i)
  {
    assert LevelOk(a, i);
    assert forall j :: 0 <= j <= k ==> a'.path[j] == a'.path[..k + 1][j] == a.path[j];
    PathIncreases(a, i, |a.path| - 1);
    if i + 1 < |a.path| - 1 { PathIncreases(a, i + 1, |a.path| - 1); }
    AllKept(a.nodes, a.path[i], EndedChildren(a, i), Bound(a, i), a'.nodes, Bound(a', i));
  }

  lemma {:induction false} PathIncreases(a: Arena, i: nat, j: nat)
    requires ArenaOk(a) && i < j < |a.path|
    ensures a.path[i] < a.path[j]
    decreases j
  {
    assert LevelOk(a, j - 1);
    if i < j - 1 {
      PathIncreases(a, i, j - 1);
    }
  }

  /** The handlers' updates of the linked elements. */
  function Appended(a: Arena, text: seq<byte>): Arena
    requires a.path != [] && a.path[|a.path| - 1] in a.nodes
  {
    var x := a.path[|a.path| - 1];
    a.(nodes := a.nodes[x := a.nodes[x].(cdata := a.nodes[x].cdata + text)])
  }

  function Started(a: Arena, name: string): Arena
    requires a.path != [] ==> a.path[|a.path| - 1] in a.nodes
  {
    if a.path == [] then
      Arena(a.nodes[a.next := Node(None, name, [], [])], a.next + 1, Some(a.next), [a.next])
    else
      var x := a.path[|a.path| - 1];
      var parent := a.nodes[x].(children := a.nodes[x].children + [a.next]);
      Arena(a.nodes[a.next := Node(Some(x), name, [], [])][x := parent], a.next + 1, a.root, a.path + [a.next])
  }

  /** The levels, one by one, make the view. */
  lemma Assembled(a: Arena, open: seq<Elem>)
    requires forall x :: x in a.nodes ==> x < a.next
    requires |open| == |a.path| && (a.path != [] ==> a.root == Some(a.path[0]))
    requires a.path == [] && a.root.Some? ==> Ended(a.nodes, a.root.value, a.next)
    requires forall i :: 0 <= i < |a.path| ==> LevelOk(a, i) && OpenElem(a, i) == open[i]
    ensures ArenaOk(a) && View(a).open == open
    ensures a.path != [] ==> View(a) == Build(open, None)
  {}

  lemma CloseAt(open: seq<Elem>, i: nat)
    requires |open| > 1 && i < |open| - 1
    ensures var n := |open| - 1;
            && Close(open).root == None && |Close(open).open| == n
            && Close(open).open[i] == if i < n - 1 then open[i] else WithChild(open[n - 1], open[n])
  {}

  /** An element other than the root has ended; the root is still open. */
  lemma StillOpen(a: Arena)
    requires ArenaOk(a) && |a.path| > 1 && a.path[|a.path| - 1] in a.nodes
    ensures forall x :: x in Finished(a).nodes ==> x < Finished(a).next
    ensures Finished(a).root == Some(Finished(a).path[0]) && |Finished(a).path| == |a.path| - 1
  {}

  lemma StartedTop(a: Arena, name: string)
    requires ArenaOk(a) && (a.path != [] ==> a.path[|a.path| - 1] in a.nodes && a.path[|a.path| - 1] < a.next)
    ensures var a' := Started(a, name);
            LevelOk(a', |a.path|) && OpenElem(a', |a.path|) == Elem(name, [], [])
  {
    var a' := Started(a, name);
    assert a'.nodes[a.next].children == [];
  }

  lemma StartedParent(a: Arena, name: string)
    requires ArenaOk(a) && a.path != [] && a.path[|a.path| - 1] in a.nodes
    ensures var a', n := Started(a, name), |a.path| - 1;
            LevelOk(a, n) && LevelOk(a', n) && OpenElem(a', n) == OpenElem(a, n)
  {
    var a', n := Started(a, name), |a.path| - 1;
    assert LevelOk(a, n);
    AllKept(a.nodes, a.path[n], EndedChildren(a, n), a.next, a'.nodes, a.next);
    assert EndedChildren(a', n) == EndedChildren(a, n);
    if n > 0 { assert a'.path[n - 1] == a.path[n - 1]; }
  }

  lemma ViewAt(a: Arena, i: nat)
    requires ArenaOk(a) && i < |a.path|
    ensures LevelOk(a, i) && |View(a).open| == |a.path| && View(a).open[i] == OpenElem(a, i)
  {}

  lemma StartLevel(a: Arena, name: string, i: nat)
    requires ArenaOk(a) && (a.path != [] ==> a.path[|a.path| - 1] in a.nodes) && i <= |a.path|
    requires a.path != [] ==> a.path[|a.path| - 1] < a.next
    ensures var a' := Started(a, name);
            LevelOk(a', i) && OpenElem(a', i) == (View(a).open + [Elem(name, [], [])])[i]
  {
    var n := |a.path|;
    hide LevelOk, OpenElem, View, ArenaOk;
    if i < n { ViewAt(a, i); }
    if i == n {
      if n > 0 { ViewAt(a, 0); } else { ViewEmpty(a); }
      StartedTop(a, name);
    } else if i == n - 1 {
      StartedParent(a, name);
    } else {
      StartedBelow(a, name, i);
      LevelKept(a, Started(a, name), n - 1, i);
    }
  }

  lemma ViewEmpty(a: Arena)
    requires ArenaOk(a) && a.path == []
    ensures View(a).open == []
  {}

  lemma StartedBelow(a: Arena, name: string, i: nat)
    requires ArenaOk(a) && a.path != [] && a.path[|a.path| - 1] in a.nodes
    ensures var a', low := Started(a, name), a.path[|a.path| - 1];
            && a'.path[..|a.path|] == a.path
            && forall y :: y < low && y in a.nodes ==> y in a'.nodes && a'.nodes[y] == a.nodes[y]
  {}

  lemma StartStep(a: Arena, name: string)
    requires ArenaOk(a) && (a.path == [] ==> a.root.None? && a.nodes == map[])
    requires a.path != [] ==> a.path[|a.path| - 1] in a.nodes
    ensures ArenaOk(Started(a, name)) && View(Started(a, name)) == Step(View(a), StartTag(name))
  {
    var a' := Started(a, name);
    forall i | 0 <= i <= |a.path|
      ensures LevelOk(a', i) && OpenElem(a', i) == (View(a).open + [Elem(name, [], [])])[i]
    {
      StartLevel(a, name, i);
    }
    if a.path != [] { ViewAt(a, 0); }
    hide LevelOk, OpenElem;
    Assembled(a', View(a).open + [Elem(name, [], [])]);
  }

  lemma CharsLevel(a: Arena, text: seq<byte>, i: nat)
    requires ArenaOk(a) && i < |a.path| && a.path[|a.path| - 1] in a.nodes
    ensures var a', top := Appended(a, text), |a.path| - 1;
            LevelOk(a', i) && LevelOk(a, i)
            && OpenElem(a', i) == if i < top then OpenElem(a, i) else WithText(OpenElem(a, i), text)
  {
    var a', n := Appended(a, text), |a.path| - 1;
    if i < n {
      LevelKept(a, a', n, i);
    } else {
      assert LevelOk(a, n);
      AllKept(a.nodes, a.path[n], EndedChildren(a, n), a.next, a'.nodes, a.next);
    }
  }

  lemma CharsStep(a: Arena, text: seq<byte>)
    requires ArenaOk(a) && a.path != [] && a.path[|a.path| - 1] in a.nodes
    ensures ArenaOk(Appended(a, text)) && View(a).open != []
    ensures View(Appended(a, text)) == Step(View(a), Chars(text))
  {
    var a', n := Appended(a, text), |a.path| - 1;
    ViewAt(a, n);
    var open := OnTop(View(a).open, WithText(View(a).open[n], text));
    forall i | 0 <= i <= n
      ensures LevelOk(a', i) && OpenElem(a', i) == open[i]
    {
      CharsLevel(a, text, i);
      ViewAt(a, i);
    }
    hide LevelOk, OpenElem;
    Assembled(a', open);
  }

  /** The innermost element gets its NUL and its parent becomes the innermost open element. */
  function Finished(a: Arena): Arena
    requires a.path != [] && a.path[|a.path| - 1] in a.nodes
  {
    var x := a.path[|a.path| - 1];
    a.(nodes := a.nodes[x := a.nodes[x].(cdata := a.nodes[x].cdata + [0])], path := a.path[..|a.path| - 1])
  }

  lemma FinishLevel(a: Arena, i: nat)
    requires ArenaOk(a) && i < |a.path| - 1 && a.path[|a.path| - 1] in a.nodes
    ensures var a', n := Finished(a), |a.path| - 1;
            LevelOk(a', i) && LevelOk(a, i) && LevelOk(a, n)
            && OpenElem(a', i) == if i < n - 1 then OpenElem(a, i) else WithChild(OpenElem(a, i), OpenElem(a, n))
  {
    var a', n := Finished(a), |a.path| - 1;
    assert LevelOk(a, n);
    if i < n - 1 {
      LevelKept(a, a', n - 1, i);
    } else {
      FinishedParent(a, a');
    }
  }

  lemma FinishRoot(a: Arena)
    requires ArenaOk(a) && |a.path| == 1 && a.path[0] in a.nodes
    ensures ArenaOk(Finished(a)) && |View(a).open| == 1
    ensures View(Finished(a)) == Build([], Some(View(a).open[0]))
  {
    var a' := Finished(a);
    FinishedElem(a, a');
    Assembled(a', []);
  }

  lemma FinishInner(a: Arena)
    requires ArenaOk(a) && |a.path| > 1 && a.path[|a.path| - 1] in a.nodes
    ensures ArenaOk(Finished(a)) && |View(a).open| == |a.path|
    ensures View(Finished(a)) == Close(View(a).open)
  {
    hide ArenaOk, View, Finished, LevelOk, OpenElem, Close;
    var a', n := Finished(a), |a.path| - 1;
    ViewAt(a, n);
    var closed := Close(View(a).open);
    CloseAt(View(a).open, 0);
    StillOpen(a);
    forall i | 0 <= i < n
      ensures LevelOk(a', i) && OpenElem(a', i) == closed.open[i]
    {
      FinishLevel(a, i);
      ViewAt(a, i);
      ViewAt(a, n);
      CloseAt(View(a).open, i);
    }
    Assembled(a', closed.open);
  }

  lemma FinishStep(a: Arena)
    requires ArenaOk(a) && a.path != [] && a.path[|a.path| - 1] in a.nodes
    ensures ArenaOk(Finished(a)) && |View(a).open| == |a.path|
    ensures View(Finished(a)) == Close(View(a).open)
  {
    hide ArenaOk, View, Finished;
    if |a.path| == 1 {
      FinishRoot(a);
    } else {
      FinishInner(a);
    }
  }

  lemma FinishedElem(a: Arena, a': Arena)
    requires ArenaOk(a) && a.path != [] && a.path[|a.path| - 1] in a.nodes && a' == Finished(a)
    ensures var x := a.path[|a.path| - 1];
            Ended(a'.nodes, x, a.next) && ElemAt(a'.nodes, x, a.next) == View(a).open[|a.path| - 1]
  {
    var n := |a.path| - 1;
    var x := a.path[n];
    assert LevelOk(a, n);
    AllKept(a.nodes, x, EndedChildren(a, n), a.next, a'.nodes, a.next);
    assert EndedChildren(a, n) == a'.nodes[x].children;
    var cdata := a'.nodes[x].cdata;
    assert cdata[..|cdata| - 1] == a.nodes[x].cdata;
    assert Ended(a'.nodes, x, a.next);
    assert ElemAt(a'.nodes, x, a.next).children == ElemsAt(a'.nodes, a'.nodes[x].children, a.next);
  }

  lemma FinishedParent(a: Arena, a': Arena)
    requires ArenaOk(a) && |a.path| > 1 && a.path[|a.path| - 1] in a.nodes && a' == Finished(a)
    ensures var n := |a.path| - 1;
            LevelOk(a', n - 1) && LevelOk(a, n - 1) && LevelOk(a, n)
            && OpenElem(a', n - 1) == WithChild(OpenElem(a, n - 1), OpenElem(a, n))
  {
    var n := |a.path| - 1;
    var x, p := a.path[n], a.path[n - 1];
    assert LevelOk(a, n - 1) && LevelOk(a, n);
    FinishedElem(a, a');
    var had := EndedChildren(a, n - 1);
    AllKept(a.nodes, p, had, x, a'.nodes, a.next);
    assert a'.nodes[p].children == had + [x];
    assert ElemsAt(a'.nodes, had + [x], a.next) == ElemsAt(a'.nodes, had, a.next) + [ElemAt(a'.nodes, x, a.next)];
  }

  class ParseContext {
    var nodes: Nodes
    var next: Id
    var root: Option<Id>
    var current: Option<Id>
    ghost var path: seq<Id>

    ghost function Elements(): Arena
      reads this
    {
      Arena(nodes, next, root, path)
    }

    ghost predicate Valid()
      reads this
    {
      && ArenaOk(Elements())
      && (path == [] && root.None? ==> nodes == map[])
      && current == if path == [] then None else Some(path[|path| - 1])
    }

    /** What has been read so far. */
    ghost function Progress(): Build
      reads this
      requires Valid()
    {
      View(Elements())
    }

    constructor ()
      ensures Valid() && Progress() == EMPTY
    {
      nodes, next, root, current := map[], 0, None, None;
      path := [];
    }

    lemma CurrentIsOpen()
      requires Valid() && path != []
      ensures path[|path| - 1] in nodes && current == Some(path[|path| - 1]) && root.Some?
      ensures path[|path| - 1] < next && |Progress().open| == |path|
    {
      ViewAt(Elements(), |path| - 1);
    }

    lemma OpenMeansPath()
      requires Valid()
      ensures |Progress().open| == |path|
    {
      if path != [] { CurrentIsOpen(); } else { ViewEmpty(Elements()); }
    }

    method StartElement(name: string)
      requires Valid() && Allowed(Progress(), StartTag(name))
      modifies this
      ensures Valid() && Progress() == Step(old(Progress()), StartTag(name))
    {
      ghost var before := Elements();
      if path != [] { CurrentIsOpen(); }
      var elem := next;
      next := next + 1;
      nodes := nodes[elem := Node(None, name, [], [])];
      if root.None? {
        root := Some(elem);
      } else {
        var parent := current.value;
        nodes := nodes[elem := nodes[elem].(parent := Some(parent))];
        nodes := nodes[parent := nodes[parent].(children := nodes[parent].children + [elem])];
      }
      current := Some(elem);
      path := path + [elem];
      assert Elements() == Started(before, name);
      StartStep(before, name);
    }

    method CharacterData(text: seq<byte>)
      requires Valid() && Allowed(Progress(), Chars(text))
      modifies this
      ensures Valid() && Progress() == Step(old(Progress()), Chars(text))
    {
      ghost var before := Elements();
      CurrentIsOpen();
      var elem := current.value;
      nodes := nodes[elem := nodes[elem].(cdata := nodes[elem].cdata + text)];
      assert Elements() == Appended(before, text);
      CharsStep(before, text);
    }

    /** The name is not looked at: the parser has matched the tags. */
    method EndElement(name: string)
      requires Valid() && Allowed(Progress(), EndTag(name))
      modifies this
      ensures Valid() && Progress() == Step(old(Progress()), EndTag(name))
    {
      ghost var before := Elements();
      CurrentIsOpen();
      var elem := current.value;
      nodes := nodes[elem := nodes[elem].(cdata := nodes[elem].cdata + [0])];
      current := nodes[elem].parent;
      path := path[..|path| - 1];
      ViewAt(before, |before.path| - 1);
      assert Elements() == Finished(before);
      FinishStep(before);
    }

    /** The parser calls a handler for each event in turn. */
    method HandleEvents(es: seq<Event>)
      requires Valid() && Run(Progress(), es).Some?
      modifies this
      ensures Valid() && Run(old(Progress()), es) == Some(Progress())
    {
      for i := 0 to |es|
        invariant Valid() && Run(old(Progress()), es) == Run(Progress(), es[i..])
      {
        assert es[i..][1..] == es[i + 1..];
        match es[i] {
          case StartTag(name) => StartElement(name);
          case EndTag(name) => EndElement(name);
          case Chars(text) => CharacterData(text);
        }
      }
    }
  }

  /** Parsing a document gives its tree, however the parser cuts the text. */
  method Parse(es: seq<Event>, ghost document: Markup) returns (context: ParseContext, root: Id)
    requires document.Tag? && NoEmptyText(es) && Singles(es) == Singles(Events(document))
    ensures Ended(context.nodes, root, context.next)
    ensures ElemAt(context.nodes, root, context.next) == TreeOf(document)
  {
    ChunkingDoesNotMatter(document, es);
    context := new ParseContext();
    context.HandleEvents(es);
    context.OpenMeansPath();
    root := context.root.value;
  }
}
