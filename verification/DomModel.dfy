/** The tree builder of libhtmlparser/ParserDom.cc on values: a stack of open
    elements, each with the finished subtrees it holds so far. */
module DomModel {
  import opened Chars
  import opened HtmlNodes
  import opened Options
  import opened TokenSpec
  import opened TokenTheorems
  import opened Seqs

  datatype Tree = Tree(node: HtmlNode, kids: seq<Tree>)

  /** An element that is still open. */
  datatype Frame = Frame(node: HtmlNode, kids: seq<Tree>)

  // ----- writing a tree back out ------------------------------------------

  function Serialize(t: Tree): string
    decreases t
  {
    t.node.text + SerializeAll(t.kids) + t.node.closingText
  }

  function SerializeAll(ts: seq<Tree>): string
    decreases ts
  {
    if ts == [] then "" else Serialize(ts[0]) + SerializeAll(ts[1..])
  }

  lemma {:induction false} SerializeConcat(a: seq<Tree>, b: seq<Tree>)
    ensures SerializeAll(a + b) == SerializeAll(a) + SerializeAll(b)
    decreases |a|
  {
    if a == [] {
      assert a + b == b;
    } else {
      assert (a + b)[1..] == a[1..] + b;
      SerializeConcat(a[1..], b);
      Regroup(Serialize(a[0]), SerializeAll(a[1..]), SerializeAll(b));
    }
  }

  lemma SerializeOne(t: Tree)
    ensures SerializeAll([t]) == Serialize(t)
  {
    assert [t][1..] == [];
    assert SerializeAll([t]) == Serialize(t) + "";
  }

  /** The text of a stack: every open element's own text and what it holds. */
  function SerializeStack(st: seq<Frame>): string {
    if st == [] then "" else st[0].node.text + SerializeAll(st[0].kids) + SerializeStack(st[1..])
  }

  lemma {:induction false} SerializeStackConcat(a: seq<Frame>, b: seq<Frame>)
    ensures SerializeStack(a + b) == SerializeStack(a) + SerializeStack(b)
    decreases |a|
  {
    if a == [] {
      assert a + b == b;
    } else {
      assert (a + b)[1..] == a[1..] + b;
      SerializeStackConcat(a[1..], b);
      Regroup(a[0].node.text + SerializeAll(a[0].kids), SerializeStack(a[1..]), SerializeStack(b));
    }
  }

  lemma SerializeStackOne(f: Frame)
    ensures SerializeStack([f]) == f.node.text + SerializeAll(f.kids)
  {
    assert [f][1..] == [];
  }

  // ----- the machine ------------------------------------------------------

  function Leaf(n: HtmlNode): Tree {
    Tree(n, [])
  }

  const ROOT: HtmlNode := HtmlNode("", "", 0, 0, "", true, false)

  const EMPTY_STACK: seq<Frame> := [Frame(ROOT, [])]

  /** The innermost open element with this name, if there is one; the root
      at index 0 is never looked at. */
  function Match(st: seq<Frame>, name: string): (k: nat)
    requires |st| > 0
    ensures k < |st|
    ensures k > 0 ==> EqualsIgnoreCase(st[k].node.tagName, name)
    ensures forall i :: k < i < |st| ==> !EqualsIgnoreCase(st[i].node.tagName, name)
    decreases |st|
  {
    if |st| == 1 then 0
    else if EqualsIgnoreCase(st[|st|-1].node.tagName, name) then |st| - 1
    else Match(st[..|st|-1], name)
  }

  /** Elements that are never closed lose their content to the element around
      them: each becomes a leaf, followed by what it held. */
  function Flat(frames: seq<Frame>): seq<Tree> {
    if frames == [] then [] else [Leaf(frames[0].node)] + frames[0].kids + Flat(frames[1..])
  }

  function AppendLeaf(st: seq<Frame>, t: Tree): (r: seq<Frame>)
    requires |st| > 0
    ensures |r| == |st|
  {
    var top := st[|st|-1];
    st[..|st|-1] + [top.(kids := top.kids + [t])]
  }

  function Closed(open: HtmlNode, close: HtmlNode): HtmlNode {
    open.(length := close.offset + close.length - open.offset, closingText := close.text)
  }

  function CloseAt(st: seq<Frame>, k: nat, close: HtmlNode): (r: seq<Frame>)
    requires 0 < k < |st|
    ensures |r| == k
  {
    var t := Tree(Closed(st[k].node, close), st[k].kids + Flat(st[k+1..]));
    AppendLeaf(st[..k], t)
  }

  function Step(st: seq<Frame>, e: Event): (r: seq<Frame>)
    requires |st| > 0
    ensures |r| > 0
  {
    match e
    case FoundText(n) => AppendLeaf(st, Leaf(n))
    case FoundComment(n) => AppendLeaf(st, Leaf(n))
    case FoundTag(n, isEnd) =>
      if !isEnd then st + [Frame(n, [])]
      else
        var k := Match(st, n.tagName);
        if k > 0 then CloseAt(st, k, n)
        else AppendLeaf(st, Leaf(n.(isTag := false, isComment := true)))
  }

  function Run(st: seq<Frame>, events: seq<Event>): (r: seq<Frame>)
    requires |st| > 0
    ensures |r| > 0
  {
    if events == [] then st
    else Step(Run(st, events[..|events|-1]), events[|events|-1])
  }

  lemma {:induction false} RunConcat(st: seq<Frame>, a: seq<Event>, b: seq<Event>)
    requires |st| > 0
    ensures Run(st, a + b) == Run(Run(st, a), b)
    decreases |b|
  {
    if b == [] {
      assert a + b == a;
    } else {
      var b' := b[..|b|-1];
      assert (a + b)[..|a + b|-1] == a + b';
      RunConcat(st, a, b');
    }
  }

  /** The stack as the tree it stands for: each open element is the last child
      of the one before it. */
  function Zip(st: seq<Frame>): Tree
    requires |st| > 0
  {
    if |st| == 1 then Tree(st[0].node, st[0].kids)
    else Tree(st[0].node, st[0].kids + [Zip(st[1..])])
  }

  /** endParsing: the root spans the whole input. */
  function Finish(st: seq<Frame>, offset: nat): (r: seq<Frame>)
    requires |st| > 0
    ensures |r| == |st|
  {
    st[0 := st[0].(node := st[0].node.(length := offset))]
  }

  function ParseStack(s: string): (r: seq<Frame>)
    ensures |r| > 0
  {
    Finish(Run(EMPTY_STACK, Tokens(s, 0, None)), |s|)
  }

  function ParseTree(s: string): Tree {
    Zip(ParseStack(s))
  }

  // ----- layout -----------------------------------------------------------

  /** A finished subtree that was read at position at. */
  ghost predicate Laid(t: Tree, at: nat)
    decreases t
  {
    && t.node.offset == at
    && t.node.length == |Serialize(t)|
    && (t.node.closingText == "" ==> t.kids == [])
    && LaidAll(t.kids, at + |t.node.text|)
  }

  ghost predicate LaidAll(ts: seq<Tree>, at: nat)
    decreases ts
  {
    ts != [] ==> Laid(ts[0], at) && LaidAll(ts[1..], at + |Serialize(ts[0])|)
  }

  lemma {:induction false} LaidConcat(a: seq<Tree>, b: seq<Tree>, at: nat)
    requires LaidAll(a, at) && LaidAll(b, at + |SerializeAll(a)|)
    ensures LaidAll(a + b, at)
    decreases |a|
  {
    if a == [] {
      assert a + b == b;
    } else {
      assert (a + b)[1..] == a[1..] + b;
      LaidConcat(a[1..], b, at + |Serialize(a[0])|);
    }
  }

  lemma LaidOne(t: Tree, at: nat)
    requires Laid(t, at)
    ensures LaidAll([t], at)
  {
    assert [t][1..] == [];
  }

  /** An open element that was read at position at. */
  ghost predicate OpenFrame(f: Frame, at: nat) {
    && f.node.offset == at
    && f.node.length == |f.node.text|
    && f.node.closingText == ""
    && LaidAll(f.kids, at + |f.node.text|)
  }

  ghost predicate FramesLaid(st: seq<Frame>, at: nat) {
    st != [] ==>
      && OpenFrame(st[0], at)
      && FramesLaid(st[1..], at + |st[0].node.text| + |SerializeAll(st[0].kids)|)
  }

  lemma {:induction false} FramesConcat(a: seq<Frame>, b: seq<Frame>, at: nat)
    ensures FramesLaid(a + b, at) <==> FramesLaid(a, at) && FramesLaid(b, at + |SerializeStack(a)|)
    decreases |a|
  {
    if a == [] {
      assert a + b == b;
    } else {
      assert (a + b)[1..] == a[1..] + b;
      FramesConcat(a[1..], b, at + |a[0].node.text| + |SerializeAll(a[0].kids)|);
    }
  }

  lemma FramesOne(f: Frame, at: nat)
    ensures FramesLaid([f], at) <==> OpenFrame(f, at)
  {
    assert [f][1..] == [];
  }

  lemma {:induction false} FlatLaid(frames: seq<Frame>, at: nat)
    requires FramesLaid(frames, at)
    ensures SerializeAll(Flat(frames)) == SerializeStack(frames)
    ensures LaidAll(Flat(frames), at)
    decreases |frames|
  {
    if frames != [] {
      var f := frames[0];
      var leaf, next := Leaf(f.node), at + |f.node.text| + |SerializeAll(f.kids)|;
      FlatLaid(frames[1..], next);
      assert Serialize(leaf) == f.node.text + "" + "";
      SerializeOne(leaf);
      LaidOne(leaf, at);
      SerializeConcat([leaf], f.kids);
      LaidConcat([leaf], f.kids, at);
      SerializeConcat([leaf] + f.kids, Flat(frames[1..]));
      LaidConcat([leaf] + f.kids, Flat(frames[1..]), at);
    }
  }

  // ----- the invariant of every run ---------------------------------------

  /** The root is at the bottom, the rest are tags that wait for their close,
      and everything sits where it was read. */
  ghost predicate StackInv(st: seq<Frame>) {
    && |st| > 0
    && st[0].node == ROOT
    && (forall i :: 1 <= i < |st| ==> st[i].node.isTag && st[i].node.tagName != "")
    && FramesLaid(st, 0)
  }

  /** A stack taken apart at k: what is below, the element at k, and what is
      above it. */
  lemma SplitStack(low: seq<Frame>, f: Frame, high: seq<Frame>)
    ensures var at := |SerializeStack(low)|;
            FramesLaid(low + [f] + high, 0) <==>
              && FramesLaid(low, 0)
              && OpenFrame(f, at)
              && FramesLaid(high, at + |f.node.text| + |SerializeAll(f.kids)|)
    ensures SerializeStack(low + [f] + high)
         == SerializeStack(low) + (f.node.text + SerializeAll(f.kids)) + SerializeStack(high)
  {
    var at := |SerializeStack(low)|;
    Regroup(low, [f], high);
    FramesConcat(low, [f] + high, 0);
    SerializeStackConcat(low, [f] + high);
    FramesConcat([f], high, at);
    SerializeStackConcat([f], high);
    FramesOne(f, at);
    SerializeStackOne(f);
    Regroup(SerializeStack(low), f.node.text + SerializeAll(f.kids), SerializeStack(high));
  }

  lemma SplitTop(front: seq<Frame>, top: Frame)
    ensures FramesLaid(front + [top], 0) <==> FramesLaid(front, 0) && OpenFrame(top, |SerializeStack(front)|)
    ensures SerializeStack(front + [top]) == SerializeStack(front) + (top.node.text + SerializeAll(top.kids))
  {
    FramesConcat(front, [top], 0);
    SerializeStackConcat(front, [top]);
    FramesOne(top, |SerializeStack(front)|);
    SerializeStackOne(top);
  }

  lemma AddKid(f: Frame, t: Tree, at: nat)
    requires OpenFrame(f, at) && Laid(t, at + |f.node.text + SerializeAll(f.kids)|)
    ensures OpenFrame(f.(kids := f.kids + [t]), at)
    ensures f.node.text + SerializeAll(f.kids + [t]) == f.node.text + SerializeAll(f.kids) + Serialize(t)
  {
    SerializeConcat(f.kids, [t]);
    SerializeOne(t);
    LaidOne(t, at + |f.node.text + SerializeAll(f.kids)|);
    LaidConcat(f.kids, [t], at + |f.node.text|);
    Regroup(f.node.text, SerializeAll(f.kids), Serialize(t));
  }

  lemma AppendLeafKeeps(st: seq<Frame>, t: Tree)
    requires StackInv(st) && Laid(t, |SerializeStack(st)|)
    ensures StackInv(AppendLeaf(st, t))
    ensures SerializeStack(AppendLeaf(st, t)) == SerializeStack(st) + Serialize(t)
  {
    var front, top := st[..|st|-1], st[|st|-1];
    assert st == front + [top];
    SplitTop(front, top);
    AddKid(top, t, |SerializeStack(front)|);
    SplitTop(front, top.(kids := top.kids + [t]));
    Regroup(SerializeStack(front), top.node.text + SerializeAll(top.kids), Serialize(t));
  }

  lemma CloseFrame(f: Frame, high: seq<Frame>, close: HtmlNode, at: nat)
    requires OpenFrame(f, at)
    requires FramesLaid(high, at + |f.node.text| + |SerializeAll(f.kids)|)
    requires close.offset == at + |f.node.text| + |SerializeAll(f.kids)| + |SerializeStack(high)|
    requires close.length == |close.text| && close.text != ""
    ensures var t := Tree(Closed(f.node, close), f.kids + Flat(high));
            && Laid(t, at)
            && Serialize(t) == f.node.text + SerializeAll(f.kids) + SerializeStack(high) + close.text
  {
    var inner := at + |f.node.text|;
    FlatLaid(high, inner + |SerializeAll(f.kids)|);
    SerializeConcat(f.kids, Flat(high));
    LaidConcat(f.kids, Flat(high), inner);
    Regroup(f.node.text, SerializeAll(f.kids), SerializeStack(high));
  }

  /** The element that a closing tag completes, with all it absorbs. */
  lemma ClosedIsLaid(low: seq<Frame>, f: Frame, high: seq<Frame>, close: HtmlNode)
    requires FramesLaid(low + [f] + high, 0)
    requires close.offset == |SerializeStack(low + [f] + high)|
    requires close.length == |close.text| && close.text != ""
    ensures var t := Tree(Closed(f.node, close), f.kids + Flat(high));
            && Laid(t, |SerializeStack(low)|)
            && SerializeStack(low) + Serialize(t) == SerializeStack(low + [f] + high) + close.text
    ensures FramesLaid(low, 0)
  {
    SplitStack(low, f, high);
    CloseFrame(f, high, close, |SerializeStack(low)|);
    Regroup4(SerializeStack(low), f.node.text + SerializeAll(f.kids), SerializeStack(high), close.text);
  }

  lemma CloseKeeps(st: seq<Frame>, k: nat, close: HtmlNode)
    requires StackInv(st) && 0 < k < |st|
    requires close.offset == |SerializeStack(st)| && close.length == |close.text| && close.text != ""
    ensures StackInv(CloseAt(st, k, close))
    ensures SerializeStack(CloseAt(st, k, close)) == SerializeStack(st) + close.text
  {
    var low, f, high := st[..k], st[k], st[k+1..];
    assert st == low + [f] + high;
    ClosedIsLaid(low, f, high, close);
    AppendLeafKeeps(low, Tree(Closed(f.node, close), f.kids + Flat(high)));
  }

  /** One event: the text grows by exactly the event's text, and the invariant
      holds on. */
  lemma StepKeeps(st: seq<Frame>, e: Event)
    requires StackInv(st) && WellShaped(e) && e.node.offset == |SerializeStack(st)|
    ensures StackInv(Step(st, e))
    ensures SerializeStack(Step(st, e)) == SerializeStack(st) + e.node.text
  {
    match e
    case FoundText(n) =>
      assert Serialize(Leaf(n)) == n.text + "" + "";
      AppendLeafKeeps(st, Leaf(n));
    case FoundComment(n) =>
      assert Serialize(Leaf(n)) == n.text + "" + "";
      AppendLeafKeeps(st, Leaf(n));
    case FoundTag(n, isEnd) =>
      if !isEnd {
        var f := Frame(n, []);
        SerializeStackConcat(st, [f]);
        SerializeStackOne(f);
        FramesConcat(st, [f], 0);
        FramesOne(f, |SerializeStack(st)|);
        assert n.text + "" == n.text;
      } else {
        var k := Match(st, n.tagName);
        if k > 0 {
          CloseKeeps(st, k, n);
        } else {
          var c := n.(isTag := false, isComment := true);
          assert Serialize(Leaf(c)) == n.text + "" + "";
          AppendLeafKeeps(st, Leaf(c));
        }
      }
  }

  lemma EmptyStackInv()
    ensures StackInv(EMPTY_STACK) && SerializeStack(EMPTY_STACK) == ""
  {
    FramesOne(Frame(ROOT, []), 0);
    SerializeStackOne(Frame(ROOT, []));
  }

  /** After every prefix of the events the stack reads as the input so far. */
  lemma {:induction false} RunKeeps(s: string, st: seq<Frame>, events: seq<Event>, b: nat, e: nat)
    requires b <= e <= |s| && Covers(s, events, b, e) && AllWellShaped(events)
    requires StackInv(st) && SerializeStack(st) == s[..b]
    ensures StackInv(Run(st, events)) && SerializeStack(Run(st, events)) == s[..e]
    decreases |events|
  {
    if events != [] {
      var first, rest := events[0], events[1..];
      var m := b + |first.node.text|;
      StepKeeps(st, first);
      assert s[..b] + s[b..m] == s[..m];
      RunKeeps(s, Step(st, first), rest, m, e);
      RunConcat(st, [first], rest);
      assert events == [first] + rest;
      RunOne(st, first);
    }
  }

  lemma RunOne(st: seq<Frame>, e: Event)
    requires |st| > 0
    ensures Run(st, [e]) == Step(st, e)
  {
    assert [e][..0] == [];
    assert Run(st, []) == st;
  }

  lemma ParseKeeps(s: string)
    ensures var st := Run(EMPTY_STACK, Tokens(s, 0, None));
            StackInv(st) && SerializeStack(st) == s
  {
    TokensPartitionInput(s, 0, None);
    TokensWellShaped(s, 0, None);
    EmptyStackInv();
    RunKeeps(s, EMPTY_STACK, Tokens(s, 0, None), 0, |s|);
    assert s[..|s|] == s;
  }

  // ----- lossless ---------------------------------------------------------

  lemma {:induction false} ZipSerialize(st: seq<Frame>)
    requires |st| > 0
    requires forall i :: 0 <= i < |st| ==> st[i].node.closingText == ""
    ensures Serialize(Zip(st)) == SerializeStack(st)
    decreases |st|
  {
    if |st| == 1 {
      assert st == [st[0]];
      SerializeStackOne(st[0]);
      assert Serialize(Zip(st)) == st[0].node.text + SerializeAll(st[0].kids) + "";
    } else {
      ZipSerialize(st[1..]);
      SerializeConcat(st[0].kids, [Zip(st[1..])]);
      SerializeOne(Zip(st[1..]));
      assert Serialize(Zip(st)) == st[0].node.text + (SerializeAll(st[0].kids) + SerializeStack(st[1..])) + "";
    }
  }

  lemma {:induction false} FramesOpen(st: seq<Frame>, at: nat)
    requires FramesLaid(st, at)
    ensures forall i :: 0 <= i < |st| ==> st[i].node.closingText == "" && st[i].node.length == |st[i].node.text|
    decreases |st|
  {
    if st != [] {
      FramesOpen(st[1..], at + |st[0].node.text| + |SerializeAll(st[0].kids)|);
      forall i | 0 <= i < |st|
        ensures st[i].node.closingText == "" && st[i].node.length == |st[i].node.text|
      {
        assert i > 0 ==> st[i] == st[1..][i-1];
      }
    }
  }

  /** Whatever the input, writing its tree back out gives the input. */
  lemma LosslessParse(s: string)
    ensures Serialize(ParseTree(s)) == s
  {
    var st := Run(EMPTY_STACK, Tokens(s, 0, None));
    ParseKeeps(s);
    FramesOpen(st, 0);
    ZipSerialize(Finish(st, |s|));
    assert Finish(st, |s|)[1..] == st[1..];
  }
}
