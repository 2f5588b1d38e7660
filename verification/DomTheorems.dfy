/** What holds of the tree of every input. */
module DomTheorems {
  import opened Chars
  import opened HtmlNodes
  import opened Options
  import opened TokenSpec
  import opened TokenTheorems
  import opened DomModel
  import opened Seqs

  // ----- spans are slices of the input ------------------------------------

  ghost predicate Occurs(u: Tree, t: Tree)
    decreases t
  {
    u == t || exists i :: 0 <= i < |t.kids| && Occurs(u, t.kids[i])
  }

  ghost predicate OccursIn(u: Tree, ts: seq<Tree>) {
    exists i :: 0 <= i < |ts| && Occurs(u, ts[i])
  }

  function SpanOf(s: string, n: HtmlNode): string
    requires 0 <= n.offset <= n.offset + n.length <= |s|
  {
    s[n.offset..n.offset+n.length]
  }

  /** u's span is inside [a, b) and reads as u. */
  ghost predicate SpanReads(s: string, u: Tree, a: nat, b: nat) {
    && a <= u.node.offset && 0 <= u.node.length && u.node.offset + u.node.length <= b <= |s|
    && SpanOf(s, u.node) == Serialize(u)
  }

  lemma {:induction false} LaidSpan(s: string, t: Tree, at: nat, u: Tree)
    requires Laid(t, at) && Occurs(u, t)
    requires at + |Serialize(t)| <= |s| && s[at..at+|Serialize(t)|] == Serialize(t)
    ensures SpanReads(s, u, at, at + |Serialize(t)|)
    ensures Laid(u, u.node.offset)
    decreases t, 0
  {
    if u != t {
      var i :| 0 <= i < |t.kids| && Occurs(u, t.kids[i]);
      var a, n := at + |t.node.text|, |SerializeAll(t.kids)|;
      Middle(t.node.text, SerializeAll(t.kids), t.node.closingText);
      SliceSlice(s, at, at + |Serialize(t)|, |t.node.text|, |t.node.text| + n);
      LaidAllSpan(s, t.kids, a, u);
    }
  }

  lemma {:induction false} LaidAllSpan(s: string, ts: seq<Tree>, at: nat, u: Tree)
    requires LaidAll(ts, at) && OccursIn(u, ts)
    requires at + |SerializeAll(ts)| <= |s| && s[at..at+|SerializeAll(ts)|] == SerializeAll(ts)
    ensures SpanReads(s, u, at, at + |SerializeAll(ts)|)
    ensures Laid(u, u.node.offset)
    decreases ts
  {
    var i :| 0 <= i < |ts| && Occurs(u, ts[i]);
    var n, all := |Serialize(ts[0])|, |SerializeAll(ts)|;
    SliceSlice(s, at, at + all, 0, n);
    SliceSlice(s, at, at + all, n, all);
    Middle(Serialize(ts[0]), SerializeAll(ts[1..]), "");
    if i == 0 {
      LaidSpan(s, ts[0], at, u);
    } else {
      assert ts[1..][i-1] == ts[i];
      LaidAllSpan(s, ts[1..], at + n, u);
    }
  }

  /** Where u stands in a tree of stacked open elements: it is one of them, or
      it is in a finished subtree. */
  ghost predicate SpanInStack(s: string, u: Tree, a: nat) {
    || (a <= u.node.offset && 0 <= u.node.length && u.node.offset + u.node.length <= |s|
        && u.node.closingText == "" && SpanOf(s, u.node) == u.node.text)
    || (SpanReads(s, u, a, |s|) && (u.node.closingText == "" ==> u.kids == []))
  }

  lemma {:induction false} StackSpan(s: string, st: seq<Frame>, at: nat, u: Tree)
    requires |st| > 0 && FramesLaid(st, at) && Occurs(u, Zip(st))
    requires at <= |s| && s[at..] == SerializeStack(st)
    ensures SpanInStack(s, u, at)
    decreases |st|
  {
    var f := st[0];
    var t, k := |f.node.text|, |SerializeAll(f.kids)|;
    StackSlices(s, st, at);
    hide SerializeStack, SerializeAll, Serialize;
    var z := Zip(st);
    if u != z {
      var i :| 0 <= i < |z.kids| && Occurs(u, z.kids[i]);
      if i < |f.kids| {
        assert z.kids[i] == f.kids[i];
        LaidAllSpan(s, f.kids, at + t, u);
        SpanWidens(s, u, at + t, at + t + k, at);
      } else {
        StackSpan(s, st[1..], at + t + k, u);
      }
    }
  }

  /** The stretches of the input that the bottom element and the rest of the
      stack stand for. */
  lemma StackSlices(s: string, st: seq<Frame>, at: nat)
    requires |st| > 0 && at <= |s| && s[at..] == SerializeStack(st)
    ensures var t, k := |st[0].node.text|, |SerializeAll(st[0].kids)|;
            && at + t + k <= |s| && s[at..at+t] == st[0].node.text && s[at+t..at+t+k] == SerializeAll(st[0].kids)
            && s[at+t+k..] == SerializeStack(st[1..])
  {
    hide SerializeAll;
    var t, k := |st[0].node.text|, |SerializeAll(st[0].kids)|;
    Middle(st[0].node.text, SerializeAll(st[0].kids), SerializeStack(st[1..]));
    assert s[at..|s|] == s[at..];
    SliceSlice(s, at, |s|, 0, t);
    SliceSlice(s, at, |s|, t, t + k);
    SliceSlice(s, at, |s|, t + k, |s| - at);
  }

  lemma SpanWidens(s: string, u: Tree, a: nat, b: nat, c: nat)
    requires SpanReads(s, u, a, b) && Laid(u, u.node.offset) && c <= a
    ensures SpanInStack(s, u, c)
  {
  }

  /** The span of a closed element, of a text, of a comment and of a childless
      element is the source of its subtree; that of an element that was never
      closed is its opening tag; that of the root is the input. */
  lemma SpanTheorem(s: string, u: Tree)
    requires Occurs(u, ParseTree(s))
    ensures u.node.offset + u.node.length <= |s| && 0 <= u.node.length
    ensures u == ParseTree(s) ==> SpanOf(s, u.node) == s
    ensures u != ParseTree(s) ==>
              SpanOf(s, u.node) == if u.node.closingText != "" || u.kids == [] then Serialize(u) else u.node.text
  {
    var st := Run(EMPTY_STACK, Tokens(s, 0, None));
    var root := ParseTree(s);
    ParseKeeps(s);
    assert ParseStack(s)[1..] == st[1..];
    if u != root {
      assert root.kids == Zip(st).kids;
      assert Occurs(u, Zip(st));
      assert s[0..] == s;
      StackSpan(s, st, 0, u);
      assert u.node.closingText == "" && u.kids == [] ==> Serialize(u) == u.node.text + "" + "";
    }
  }

  // ----- spans are nested or disjoint -------------------------------------

  /** The nodes of a tree in document order. */
  function Nodes(t: Tree): (r: seq<HtmlNode>)
    ensures |r| > 0
    decreases t
  {
    [t.node] + NodesAll(t.kids)
  }

  function NodesAll(ts: seq<Tree>): seq<HtmlNode>
    decreases ts
  {
    if ts == [] then [] else Nodes(ts[0]) + NodesAll(ts[1..])
  }

  lemma {:induction false} NodesConcat(a: seq<Tree>, b: seq<Tree>)
    ensures NodesAll(a + b) == NodesAll(a) + NodesAll(b)
    decreases |a|
  {
    if a == [] {
      assert a + b == b;
    } else {
      assert (a + b)[1..] == a[1..] + b;
      NodesConcat(a[1..], b);
      Regroup(Nodes(a[0]), NodesAll(a[1..]), NodesAll(b));
    }
  }

  lemma NodesOne(t: Tree)
    ensures NodesAll([t]) == Nodes(t)
  {
    assert [t][1..] == [];
    assert NodesAll([t]) == Nodes(t) + [];
  }

  function End(n: HtmlNode): int {
    n.offset + n.length
  }

  ghost predicate Within(ns: seq<HtmlNode>, a: int, b: int) {
    forall i :: 0 <= i < |ns| ==> a <= ns[i].offset <= End(ns[i]) <= b
  }

  ghost predicate NestedOrDisjoint(m: HtmlNode, n: HtmlNode) {
    End(m) <= n.offset || (m.offset <= n.offset && End(n) <= End(m))
  }

  /** Of two spans, the later one lies behind the earlier one or inside it. */
  ghost predicate Laminar(ns: seq<HtmlNode>) {
    forall i, j :: 0 <= i < j < |ns| ==> NestedOrDisjoint(ns[i], ns[j])
  }

  lemma LaminarConcat(x: seq<HtmlNode>, y: seq<HtmlNode>, a: int, m: int, b: int)
    requires a <= m <= b
    requires Laminar(x) && Within(x, a, m) && Laminar(y) && Within(y, m, b)
    ensures Laminar(x + y) && Within(x + y, a, b)
  {
    var z := x + y;
    assert forall i :: 0 <= i < |x| ==> z[i] == x[i];
    assert forall i :: |x| <= i < |z| ==> z[i] == y[i-|x|];
  }

  lemma LaminarCons(n: HtmlNode, y: seq<HtmlNode>, m: int, b: int)
    requires n.offset <= End(n) <= b && n.offset <= m <= b
    requires End(n) == b || End(n) <= m
    requires Laminar(y) && Within(y, m, b)
    ensures Laminar([n] + y) && Within([n] + y, n.offset, b)
  {
    var z := [n] + y;
    assert forall i :: 1 <= i < |z| ==> z[i] == y[i-1];
  }

  lemma {:induction false} LaidLaminar(t: Tree, at: nat)
    requires Laid(t, at)
    ensures Laminar(Nodes(t)) && Within(Nodes(t), at, at + |Serialize(t)|)
    decreases t
  {
    var a, b := at + |t.node.text|, at + |t.node.text| + |SerializeAll(t.kids)|;
    LaidAllLaminar(t.kids, a);
    assert Within(NodesAll(t.kids), a, at + |Serialize(t)|);
    LaminarCons(t.node, NodesAll(t.kids), a, at + |Serialize(t)|);
  }

  lemma {:induction false} LaidAllLaminar(ts: seq<Tree>, at: nat)
    requires LaidAll(ts, at)
    ensures Laminar(NodesAll(ts)) && Within(NodesAll(ts), at, at + |SerializeAll(ts)|)
    decreases ts
  {
    if ts != [] {
      var m := at + |Serialize(ts[0])|;
      LaidLaminar(ts[0], at);
      LaidAllLaminar(ts[1..], m);
      LaminarConcat(Nodes(ts[0]), NodesAll(ts[1..]), at, m, at + |SerializeAll(ts)|);
    }
  }

  /** The nodes of a stack in document order. */
  function StackNodes(st: seq<Frame>): seq<HtmlNode> {
    if st == [] then [] else [st[0].node] + NodesAll(st[0].kids) + StackNodes(st[1..])
  }

  lemma {:induction false} ZipNodes(st: seq<Frame>)
    requires |st| > 0
    ensures Nodes(Zip(st)) == StackNodes(st)
    decreases |st|
  {
    if |st| == 1 {
      assert st[1..] == [];
    } else {
      ZipNodes(st[1..]);
      NodesConcat(st[0].kids, [Zip(st[1..])]);
      NodesOne(Zip(st[1..]));
    }
  }

  lemma {:induction false} StackLaminar(st: seq<Frame>, at: nat)
    requires FramesLaid(st, at)
    ensures Laminar(StackNodes(st)) && Within(StackNodes(st), at, at + |SerializeStack(st)|)
    decreases |st|
  {
    if st != [] {
      var f := st[0];
      var a := at + |f.node.text|;
      var m, b := a + |SerializeAll(f.kids)|, at + |SerializeStack(st)|;
      LaidAllLaminar(f.kids, a);
      StackLaminar(st[1..], m);
      LaminarConcat(NodesAll(f.kids), StackNodes(st[1..]), a, m, b);
      LaminarCons(f.node, NodesAll(f.kids) + StackNodes(st[1..]), a, b);
      Regroup([f.node], NodesAll(f.kids), StackNodes(st[1..]));
    }
  }

  lemma StackNodesIs(st: seq<Frame>)
    requires st != []
    ensures StackNodes(st) == [st[0].node] + NodesAll(st[0].kids) + StackNodes(st[1..])
  {
  }

  lemma LaminarTail(n: HtmlNode, rest: seq<HtmlNode>, a: int, b: int)
    requires Laminar([n] + rest) && Within([n] + rest, a, b)
    ensures Laminar(rest) && Within(rest, a, b)
  {
    var all := [n] + rest;
    forall i, j | 0 <= i < j < |rest|
      ensures NestedOrDisjoint(rest[i], rest[j])
    {
      assert all[i+1] == rest[i] && all[j+1] == rest[j];
    }
    forall i | 0 <= i < |rest|
      ensures a <= rest[i].offset <= End(rest[i]) <= b
    {
      assert all[i+1] == rest[i];
    }
  }

  /** In the tree of every input, any two spans are nested or disjoint, and
      all of them lie inside the root's, which is the whole input. */
  lemma SpansNestOrAreDisjoint(s: string)
    ensures var ns := Nodes(ParseTree(s));
            Laminar(ns) && Within(ns, 0, |s|) && ns[0].offset == 0 && End(ns[0]) == |s|
  {
    var st := Run(EMPTY_STACK, Tokens(s, 0, None));
    ParseKeeps(s);
    var rest := NodesAll(st[0].kids) + StackNodes(st[1..]);
    StackLaminar(st, 0);
    Regroup([st[0].node], NodesAll(st[0].kids), StackNodes(st[1..]));
    hide StackInv, Laminar, Within, StackNodes, NodesAll, Run, Tokens, Nodes, Zip, SerializeStack;
    StackNodesIs(st);
    LaminarTail(st[0].node, rest, 0, |s|);
    var fin := ParseStack(s);
    StackNodesIs(fin);
    ZipNodes(fin);
    assert fin[1..] == st[1..];
    LaminarCons(fin[0].node, rest, 0, |s|);
    Regroup([fin[0].node], NodesAll(st[0].kids), StackNodes(st[1..]));
  }

  // ----- document order ---------------------------------------------------

  lemma {:induction false} StackNodesConcat(a: seq<Frame>, b: seq<Frame>)
    ensures StackNodes(a + b) == StackNodes(a) + StackNodes(b)
    decreases |a|
  {
    if a == [] {
      assert a + b == b;
    } else {
      assert (a + b)[1..] == a[1..] + b;
      StackNodesConcat(a[1..], b);
      Regroup([a[0].node] + NodesAll(a[0].kids), StackNodes(a[1..]), StackNodes(b));
    }
  }

  lemma StackNodesOne(f: Frame)
    ensures StackNodes([f]) == [f.node] + NodesAll(f.kids)
  {
    assert [f][1..] == [];
  }

  lemma {:induction false} FlatNodes(frames: seq<Frame>)
    ensures NodesAll(Flat(frames)) == StackNodes(frames)
    decreases |frames|
  {
    if frames != [] {
      var f := frames[0];
      FlatNodes(frames[1..]);
      NodesOne(Leaf(f.node));
      NodesConcat([Leaf(f.node)], f.kids);
      NodesConcat([Leaf(f.node)] + f.kids, Flat(frames[1..]));
    }
  }

  lemma AppendLeafNodes(st: seq<Frame>, t: Tree)
    requires |st| > 0
    ensures StackNodes(AppendLeaf(st, t)) == StackNodes(st) + Nodes(t)
  {
    var front, top := st[..|st|-1], st[|st|-1];
    var top' := top.(kids := top.kids + [t]);
    assert st == front + [top];
    StackNodesConcat(front, [top]);
    StackNodesConcat(front, [top']);
    StackNodesOne(top);
    StackNodesOne(top');
    NodesConcat(top.kids, [t]);
    NodesOne(t);
    Regroup([top.node], NodesAll(top.kids), Nodes(t));
    Regroup(StackNodes(front), [top.node] + NodesAll(top.kids), Nodes(t));
  }

  /** A closing tag neither adds, drops nor moves a node in document order: it
      completes the one node that it closes, which stands behind the nodes of
      the elements around it. */
  lemma CloseKeepsOrder(st: seq<Frame>, k: nat, close: HtmlNode)
    requires 0 < k < |st|
    ensures |StackNodes(st[..k])| < |StackNodes(st)|
    ensures StackNodes(st)[|StackNodes(st[..k])|] == st[k].node
    ensures StackNodes(CloseAt(st, k, close))
         == StackNodes(st)[|StackNodes(st[..k])| := Closed(st[k].node, close)]
  {
    var low, f, high := st[..k], st[k], st[k+1..];
    assert st == low + ([f] + high);
    StackNodesConcat(low, [f] + high);
    StackNodesConcat([f], high);
    StackNodesOne(f);
    FlatNodes(high);
    NodesConcat(f.kids, Flat(high));
    var c := Closed(f.node, close);
    AppendLeafNodes(low, Tree(c, f.kids + Flat(high)));
    hide StackNodes, NodesAll, AppendLeaf, Flat;
    Regroup([f.node], NodesAll(f.kids), StackNodes(high));
    Regroup(StackNodes(low), [f.node], NodesAll(f.kids) + StackNodes(high));
    Regroup(StackNodes(low), [c], NodesAll(f.kids) + StackNodes(high));
    UpdateMiddle(StackNodes(low), f.node, NodesAll(f.kids) + StackNodes(high), c);
  }

  /** Every element that a closing tag skips ends up childless, as a direct
      child of the element that is closed. */
  lemma {:induction false} SkippedBecomeLeaves(frames: seq<Frame>, j: nat)
    requires j < |frames|
    ensures Leaf(frames[j].node) in Flat(frames)
    ensures forall i :: 0 <= i < |frames[j].kids| ==> frames[j].kids[i] in Flat(frames)
    decreases j
  {
    var tail := Flat(frames[1..]);
    var whole := [Leaf(frames[0].node)] + frames[0].kids + tail;
    if j == 0 {
      assert whole[0] == Leaf(frames[0].node);
      assert forall i :: 0 <= i < |frames[0].kids| ==> whole[1+i] == frames[0].kids[i];
    } else {
      SkippedBecomeLeaves(frames[1..], j - 1);
      assert frames[1..][j-1] == frames[j];
      assert forall x :: x in tail ==> x in whole;
    }
  }

  // ----- the open elements ------------------------------------------------

  function Names(st: seq<Frame>): (r: seq<string>)
    requires |st| > 0
    ensures |r| == |st| - 1
  {
    seq(|st| - 1, i requires 0 <= i < |st| - 1 => st[i+1].node.tagName)
  }

  /** Leave names up to but without the last one that matches; all of them if
      none does. */
  function PopTo(names: seq<string>, name: string): seq<string> {
    if !exists i :: 0 <= i < |names| && EqualsIgnoreCase(names[i], name) then names
    else if EqualsIgnoreCase(names[|names|-1], name) then names[..|names|-1]
    else PopTo(names[..|names|-1], name)
  }

  /** The names of the elements that are open after the events. */
  function OpenTags(events: seq<Event>): seq<string> {
    if events == [] then []
    else
      var before, e := OpenTags(events[..|events|-1]), events[|events|-1];
      if !e.FoundTag? then before
      else if !e.isEnd then before + [e.node.tagName]
      else PopTo(before, e.node.tagName)
  }

  lemma {:induction false} PopToIsMatch(st: seq<Frame>, name: string)
    requires |st| > 0
    ensures var k := Match(st, name);
            PopTo(Names(st), name) == if k > 0 then Names(st[..k]) else Names(st)
    decreases |st|
  {
    if |st| > 1 {
      var low := st[..|st|-1];
      NamesMore(low, st[|st|-1]);
      assert st == low + [st[|st|-1]];
      PopToIsMatch(low, name);
      hide Names;
      if EqualsIgnoreCase(st[|st|-1].node.tagName, name) {
        PopToLast(Names(low), st[|st|-1].node.tagName, name);
      } else {
        var k := Match(low, name);
        assert low[..k] == st[..k];
        MatchNamed(low, name);
        PopToMore(Names(low), st[|st|-1].node.tagName, name);
      }
    }
  }

  lemma NamesMore(low: seq<Frame>, f: Frame)
    requires |low| > 0
    ensures Names(low + [f]) == Names(low) + [f.node.tagName]
  {
  }

  lemma PopToLast(names: seq<string>, last: string, name: string)
    requires EqualsIgnoreCase(last, name)
    ensures PopTo(names + [last], name) == names
  {
    hide EqualsIgnoreCase;
    assert (names + [last])[|names|] == last && (names + [last])[..|names|] == names;
  }

  ghost predicate Named(names: seq<string>, name: string) {
    exists i :: 0 <= i < |names| && EqualsIgnoreCase(names[i], name)
  }

  lemma PopToMore(names: seq<string>, last: string, name: string)
    requires !EqualsIgnoreCase(last, name)
    ensures PopTo(names + [last], name) == if Named(names, name) then PopTo(names, name) else names + [last]
  {
    hide EqualsIgnoreCase;
    var all := names + [last];
    assert all[|names|] == last && all[..|names|] == names;
    if i :| 0 <= i < |names| && EqualsIgnoreCase(names[i], name) {
      assert all[i] == names[i];
    }
  }

  lemma MatchNamed(st: seq<Frame>, name: string)
    requires |st| > 0
    ensures Match(st, name) > 0 <==> Named(Names(st), name)
  {
    hide EqualsIgnoreCase;
    var k := Match(st, name);
    if k > 0 {
      assert Names(st)[k-1] == st[k].node.tagName;
    }
    forall i | 0 <= i < |Names(st)|
      ensures Names(st)[i] == st[i+1].node.tagName
    {
    }
  }

  lemma StepNames(st: seq<Frame>, e: Event)
    requires |st| > 0
    ensures Names(Step(st, e)) ==
              if !e.FoundTag? then Names(st)
              else if !e.isEnd then Names(st) + [e.node.tagName]
              else PopTo(Names(st), e.node.tagName)
  {
    hide Match, PopTo, Flat, Closed, AppendLeaf, Names;
    match e
    case FoundText(n) => NamesStay(st, Leaf(n));
    case FoundComment(n) => NamesStay(st, Leaf(n));
    case FoundTag(n, isEnd) =>
      if !isEnd {
        NamesMore(st, Frame(n, []));
      } else {
        PopToIsMatch(st, n.tagName);
        var k := Match(st, n.tagName);
        if k > 0 {
          NamesStay(st[..k], Tree(Closed(st[k].node, n), st[k].kids + Flat(st[k+1..])));
        } else {
          NamesStay(st, Leaf(n.(isTag := false, isComment := true)));
        }
      }
  }

  lemma NamesStay(st: seq<Frame>, t: Tree)
    requires |st| > 0
    ensures Names(AppendLeaf(st, t)) == Names(st)
  {
  }

  /** Above the root, the stack holds exactly the elements that are open, by
      the push and pop rule on names alone. */
  lemma {:induction false} OpenElements(events: seq<Event>)
    ensures Names(Run(EMPTY_STACK, events)) == OpenTags(events)
    decreases |events|
  {
    if events != [] {
      var n := |events| - 1;
      OpenElements(events[..n]);
      StepNames(Run(EMPTY_STACK, events[..n]), events[n]);
    }
  }

  // ----- well-nested markup is read back as it was ------------------------

  /** A tree of texts, comments and closed elements. */
  ghost predicate WellNested(t: Tree)
    decreases t
  {
    if t.node.isTag then
      && !t.node.isComment && t.node.closingText != ""
      && t.node.length >= |t.node.closingText| && t.node.offset + t.node.length >= |t.node.closingText|
      && (forall i :: 0 <= i < |t.kids| ==> WellNested(t.kids[i]))
    else
      t.kids == []
  }

  function OpenEvent(n: HtmlNode): Event {
    FoundTag(n.(length := |n.text|, closingText := ""), false)
  }

  function CloseEvent(n: HtmlNode): Event
    requires n.offset + n.length >= |n.closingText|
  {
    FoundTag(TagNode(n.closingText, n.tagName, n.offset + n.length - |n.closingText|), true)
  }

  /** The events of well-nested markup. */
  ghost function EventsOf(t: Tree): seq<Event>
    requires WellNested(t)
    decreases t
  {
    if t.node.isTag then [OpenEvent(t.node)] + EventsOfAll(t.kids) + [CloseEvent(t.node)]
    else if t.node.isComment then [FoundComment(t.node)]
    else [FoundText(t.node)]
  }

  ghost function EventsOfAll(ts: seq<Tree>): seq<Event>
    requires forall i :: 0 <= i < |ts| ==> WellNested(ts[i])
    decreases ts
  {
    if ts == [] then [] else EventsOf(ts[0]) + EventsOfAll(ts[1..])
  }

  lemma CloseInnermost(st: seq<Frame>, f: Frame, close: HtmlNode)
    requires |st| > 0 && close.tagName == f.node.tagName
    ensures Step(st + [f], FoundTag(close, true)) == AppendLeaf(st, Tree(Closed(f.node, close), f.kids))
  {
    var all := st + [f];
    assert Match(all, close.tagName) == |st|;
    assert all[..|st|] == st && all[|st|+1..] == [];
    assert f.kids + Flat([]) == f.kids;
  }

  lemma AppendLeafTop(front: seq<Frame>, f: Frame, t: Tree)
    ensures AppendLeaf(front + [f], t) == front + [f.(kids := f.kids + [t])]
  {
    assert (front + [f])[..|front|] == front;
  }

  lemma RunNone(st: seq<Frame>)
    requires |st| > 0
    ensures Run(st, []) == st
  {
  }

  /** Whatever is open, the events of a well-nested tree add that tree. */
  lemma {:induction false} WellNestedRoundTrip(st: seq<Frame>, t: Tree)
    requires |st| > 0 && WellNested(t)
    ensures Run(st, EventsOf(t)) == AppendLeaf(st, t)
    decreases t, 0
  {
    hide Run, AppendLeaf, Match, CloseAt;
    if t.node.isTag {
      var open, close := OpenEvent(t.node), CloseEvent(t.node);
      var inner := EventsOfAll(t.kids);
      RunConcat(st, [open] + inner, [close]);
      RunConcat(st, [open], inner);
      RunOne(st, open);
      WellNestedRoundTripAll(st, Frame(open.node, []), t.kids);
      assert [] + t.kids == t.kids;
      var st2 := st + [Frame(open.node, t.kids)];
      RunOne(st2, close);
      CloseInnermost(st, Frame(open.node, t.kids), close.node);
      assert Tree(Closed(open.node, close.node), t.kids) == t;
    } else {
      RunOne(st, EventsOf(t)[0]);
      assert t == Leaf(t.node);
    }
  }

  lemma {:induction false} WellNestedRoundTripAll(front: seq<Frame>, f: Frame, ts: seq<Tree>)
    requires forall i :: 0 <= i < |ts| ==> WellNested(ts[i])
    ensures Run(front + [f], EventsOfAll(ts)) == front + [f.(kids := f.kids + ts)]
    decreases ts
  {
    hide Run, AppendLeaf, EventsOf, WellNested;
    if ts == [] {
      assert f.kids + [] == f.kids;
      RunNone(front + [f]);
    } else {
      WellNestedRoundTrip(front + [f], ts[0]);
      AppendLeafTop(front, f, ts[0]);
      RunConcat(front + [f], EventsOf(ts[0]), EventsOfAll(ts[1..]));
      WellNestedRoundTripAll(front, f.(kids := f.kids + [ts[0]]), ts[1..]);
      assert f.kids + ts == f.kids + [ts[0]] + ts[1..];
    }
  }
}
