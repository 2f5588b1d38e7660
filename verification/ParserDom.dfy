/** libhtmlparser/ParserDom.cc: the tree builder on the linked tree. */
module ParserDomModule {
  import opened Chars
  import opened HtmlNodes
  import opened Forests
  import opened HtmlLinks
  import opened HtmlTrees
  import opened DomModel
  import opened DomForest
  import opened Options
  import opened TokenSpec
  import opened TokenTheorems
  import opened ParserSaxModule
  import opened Seqs

  // ----- the close-tag walk on values -------------------------------------

  /** The stack with everything above m given up to m. */
  ghost function Collapsed(st: seq<Frame>, m: nat): (r: seq<Frame>)
    requires m < |st|
    ensures |r| == m + 1
  {
    st[..m] + [Frame(st[m].node, st[m].kids + Flat(st[m+1..]))]
  }

  lemma CollapsedTop(st: seq<Frame>)
    requires |st| > 0
    ensures Collapsed(st, |st| - 1) == st
  {
    var k := |st| - 1;
    assert st[k].kids + Flat([]) == st[k].kids;
  }

  lemma CollapsedStep(st: seq<Frame>, m: nat)
    requires 0 < m < |st|
    ensures GiveUpTop(Collapsed(st, m)) == Collapsed(st, m - 1)
  {
    var top, below := st[m], st[m-1];
    var rest := Flat(st[m+1..]);
    assert st[m..][1..] == st[m+1..];
    assert Flat(st[m..]) == [Leaf(top.node)] + top.kids + rest;
    assert below.kids + [Leaf(top.node)] + (top.kids + rest) == below.kids + Flat(st[m..]);
  }

  /** Closing the k-th open element: its datum changes, what is above it is
      given up to it, and it counts as finished. */
  lemma CollapsedCloses(st: seq<Frame>, k: nat, close: HtmlNode)
    requires 0 < k < |st|
    ensures var c := Collapsed(st[k := Frame(Closed(st[k].node, close), st[k].kids)], k);
            AppendLeaf(c[..k], Tree(c[k].node, c[k].kids)) == CloseAt(st, k, close)
  {
    var st1 := st[k := Frame(Closed(st[k].node, close), st[k].kids)];
    assert st1[..k] == st[..k] && st1[k+1..] == st[k+1..];
  }

  lemma {:induction false} MatchIs(st: seq<Frame>, name: string, k: nat)
    requires k < |st|
    requires k > 0 ==> EqualsIgnoreCase(st[k].node.tagName, name)
    requires forall i :: k < i < |st| ==> !EqualsIgnoreCase(st[i].node.tagName, name)
    ensures Match(st, name) == k
  {
    var m := Match(st, name);
    if m != k {
      assert false;
    }
  }

  // ----- the class --------------------------------------------------------

  /** The one node between head and feet is root. */
  ghost predicate OneRoot(f: Forest, head: Id, feet: Id, root: Id) {
    TOP in f.kids && f.kids[TOP] == [head, root, feet]
  }

  lemma RootAlone(f: Forest, head: Id, feet: Id, n: Id)
    requires WF(f) && f.kids[TOP] == [head, feet] && n !in f.par && n != TOP
    ensures var g := Inserted(f, TOP, 1, n, ROOT);
            Represents(g, [n], EMPTY_STACK) && OneRoot(g, head, feet, n)
  {
    InsertedWF(f, TOP, 1, n, ROOT);
    assert Splice([head, feet], 1, [n]) == [head, n, feet];
  }

  lemma RootPlace(f: Forest, head: Id, feet: Id, root: Id)
    requires OneRoot(f, head, feet, root)
    ensures TOP in f.kids && |f.kids[TOP]| == 3 && f.kids[TOP][1] == root
  {
  }

  /** Below the top level, children do not change who the root is. */
  lemma RootStays(f: Forest, head: Id, feet: Id, root: Id, p: Id, n: Id, x: HtmlNode)
    requires WF(f) && OneRoot(f, head, feet, root) && p in f.par && n !in f.par && n != TOP
    ensures OneRoot(Appended(f, p, n, x), head, feet, root)
  {
  }

  lemma RootStaysData(f: Forest, head: Id, feet: Id, root: Id, n: Id, x: HtmlNode)
    requires OneRoot(f, head, feet, root) && n in f.data
    ensures OneRoot(WithData(f, n, x), head, feet, root)
  {
  }

  lemma RootStaysFlattened(f: Forest, head: Id, feet: Id, root: Id, n: Id)
    requires WF(f) && OneRoot(f, head, feet, root) && n in f.par && f.par[n] != TOP
    ensures OneRoot(Flattened(f, n), head, feet, root)
  {
  }

  /** The open elements are no sentinels, and the way up from one leads to the
      next. */
  lemma SpineFacts(f: Forest, spine: seq<Id>, st: seq<Frame>, head: Id, feet: Id, j: nat)
    requires Represents(f, spine, st) && OneRoot(f, head, feet, spine[0]) && j < |spine|
    ensures WF(f) && Domains(f) && spine[j] in f.par && spine[j] in f.data && spine[j] in f.kids
    ensures spine[j] != head && spine[j] != feet && f.data[spine[j]] == st[j].node
    ensures f.par[spine[j]] == if j == 0 then TOP else spine[j-1]
    ensures j > 0 ==> spine[j] != spine[0] && spine[j-1] != TOP
  {
    hide Domains;
    assert SpineNode(f, spine, st, j);
    assert SpineNode(f, spine, st, 0);
    TopThree(f, head, feet, spine[0]);
    if j > 0 {
      SpineRank(f, spine, st, 0, j);
    }
    SpineNoTop(f, spine, st, j);
  }

  lemma SpineNoTop(f: Forest, spine: seq<Id>, st: seq<Frame>, j: nat)
    requires Represents(f, spine, st) && j < |spine|
    ensures Domains(f) && spine[j] in f.par && spine[j] in f.data && spine[j] in f.kids
    ensures j > 0 ==> spine[j-1] != TOP
  {
    assert SpineNode(f, spine, st, j);
    if j > 0 {
      assert SpineNode(f, spine, st, j - 1);
    }
  }

  lemma TopThree(f: Forest, head: Id, feet: Id, root: Id)
    requires WF(f) && OneRoot(f, head, feet, root)
    ensures head in f.par && feet in f.par && f.par[head] == TOP && f.par[feet] == TOP
    ensures root != head && root != feet
  {
    KidFacts(f, TOP, 0);
    KidFacts(f, TOP, 1);
    KidFacts(f, TOP, 2);
  }

  /** What a new last child of the current node brings about. */
  lemma Grows(f: Forest, spine: seq<Id>, st: seq<Frame>, head: Id, feet: Id, x: HtmlNode)
    requires Represents(f, spine, st) && OneRoot(f, head, feet, spine[0])
    requires f.bound !in f.par && f.bound != TOP
    ensures var p := spine[|spine|-1];
            && Domains(f) && p in f.kids && p != head && p != feet
            && OneRoot(Appended(f, p, f.bound, x), head, feet, spine[0])
            && Represents(Appended(f, p, f.bound, x), spine, AppendLeaf(st, Leaf(x)))
            && Represents(Appended(f, p, f.bound, x), spine + [f.bound], st + [Frame(x, [])])
  {
    hide Represents, OneRoot, WF, Domains, Appended, AppendLeaf;
    RepresentsParts(f, spine, st);
    SpineFacts(f, spine, st, head, feet, |spine| - 1);
    RepresentsLeaf(f, spine, st, f.bound, x);
    RepresentsPush(f, spine, st, f.bound, x);
    RootStays(f, head, feet, spine[0], spine[|spine|-1], f.bound, x);
  }

  lemma RepresentsParts(f: Forest, spine: seq<Id>, st: seq<Frame>)
    requires Represents(f, spine, st)
    ensures WF(f) && Domains(f) && |spine| == |st| > 0 && spine[|spine|-1] in f.par
  {
  }

  ghost predicate Tags(st: seq<Frame>) {
    forall i {:trigger st[i]} :: 1 <= i < |st| ==> st[i].node.isTag && st[i].node.tagName != ""
  }

  /** The walk gives up one more element. */
  lemma GiveUpOne(f: Forest, spine: seq<Id>, st: seq<Frame>, head: Id, feet: Id, j: nat)
    requires |spine| == |st| && j + 1 < |st| && OneRoot(f, head, feet, spine[0])
    requires Represents(f, spine[..|spine|-j], Collapsed(st, |st| - 1 - j))
    ensures var n := spine[|spine|-1-j];
            && WF(f) && n in f.par
            && OneRoot(Flattened(f, n), head, feet, spine[0])
            && Represents(Flattened(f, n), spine[..|spine|-(j+1)], Collapsed(st, |st| - 1 - (j + 1)))
  {
    hide Represents, OneRoot, WF, Domains, Flattened, Collapsed, GiveUpTop;
    var low, held := spine[..|spine|-j], Collapsed(st, |st| - 1 - j);
    assert low[..|low|-1] == spine[..|spine|-(j+1)];
    SpineFacts(f, low, held, head, feet, |low| - 1);
    RepresentsFlatten(f, low, held);
    CollapsedStep(st, |st| - 1 - j);
    RootStaysFlattened(f, head, feet, spine[0], spine[|spine|-1-j]);
  }

  /** The matched element gets its closing text. */
  lemma CloseData(f: Forest, spine: seq<Id>, st: seq<Frame>, head: Id, feet: Id, k: nat, x: HtmlNode)
    requires Represents(f, spine, st) && OneRoot(f, head, feet, spine[0]) && k < |st|
    ensures |spine| == |st| && spine[k] in f.data
    ensures OneRoot(WithData(f, spine[k], x), head, feet, spine[0])
    ensures Represents(WithData(f, spine[k], x), spine, st[k := Frame(x, st[k].kids)])
  {
    RepresentsData(f, spine, st, k, x);
  }

  /** The matched element is finished. */
  lemma CloseFinished(f: Forest, spine: seq<Id>, st: seq<Frame>, k: nat, close: HtmlNode)
    requires 0 < k < |st| && |spine| == |st|
    requires Represents(f, spine[..k+1], Collapsed(st[k := Frame(Closed(st[k].node, close), st[k].kids)], k))
    ensures Represents(f, spine[..k], CloseAt(st, k, close))
  {
    hide Represents, Collapsed, CloseAt, AppendLeaf;
    var held := Collapsed(st[k := Frame(Closed(st[k].node, close), st[k].kids)], k);
    assert spine[..k+1][..k] == spine[..k];
    RepresentsPop(f, spine[..k+1], held);
    CollapsedCloses(st, k, close);
  }

  lemma TagsStay(st: seq<Frame>, k: nat, close: HtmlNode)
    requires 0 < k < |st| && Tags(st)
    ensures Tags(CloseAt(st, k, close))
  {
  }

  class ParserDom {
    const tree: HtmlTree
    var current: TreeNode?
    // The open elements, as nodes and as values.
    ghost var spine: seq<Id>
    ghost var st: seq<Frame>

    ghost predicate Valid()
      reads this, tree, tree.nodes
    {
      && tree.Valid()
      && Represents(tree.forest, spine, st)
      && OneRoot(tree.forest, tree.head.id, tree.feet.id, spine[0])
      && current != null && current in tree.nodes && current.id == spine[|spine|-1]
      && Tags(st)
    }

    constructor ()
      ensures tree.Valid() && fresh(tree) && fresh(tree.nodes)
    {
      hide HtmlTree.Valid;
      tree := new HtmlTree();
      current := null;
    }

    method BeginParsing()
      requires tree.Valid()
      modifies this, tree, tree.nodes
      ensures Valid() && fresh(tree.nodes - old(tree.nodes))
      ensures st == EMPTY_STACK
    {
      hide HtmlTree.Valid, Represents, OneRoot, WF, Domains, Inserted;
      tree.Clear();
      var top := tree.Begin();
      tree.BoundIsFree();
      RootAlone(tree.forest, tree.head.id, tree.feet.id, tree.forest.bound);
      var root := tree.Insert(top, ROOT);
      current := root;
      spine, st := [root.id], EMPTY_STACK;
    }

    /** append_child to the current element. */
    method AppendToCurrent(node: HtmlNode) returns (tmp: TreeNode)
      requires Valid()
      modifies tree, tree.nodes
      ensures tree.Valid() && tree.nodes == old(tree.nodes) + {tmp} && fresh(tmp)
      ensures OneRoot(tree.forest, tree.head.id, tree.feet.id, spine[0])
      ensures Represents(tree.forest, spine, AppendLeaf(st, Leaf(node)))
      ensures Represents(tree.forest, spine + [tmp.id], st + [Frame(node, [])])
    {
      hide HtmlTree.Valid, Represents, OneRoot, WF, Domains, Appended, AppendLeaf;
      tree.BoundIsFree();
      tree.LinksOf(current);
      Grows(tree.forest, spine, st, tree.head.id, tree.feet.id, node);
      tmp := tree.AppendChild(current, node);
    }

    method FoundText(node: HtmlNode)
      requires Valid()
      modifies this`st, tree, tree.nodes
      ensures Valid() && fresh(tree.nodes - old(tree.nodes))
      ensures st == AppendLeaf(old(st), Leaf(node))
    {
      hide HtmlTree.Valid, Represents, OneRoot;
      var _ := AppendToCurrent(node);
      st := AppendLeaf(st, Leaf(node));
    }

    method FoundComment(node: HtmlNode)
      requires Valid()
      modifies this`st, tree, tree.nodes
      ensures Valid() && fresh(tree.nodes - old(tree.nodes))
      ensures st == AppendLeaf(old(st), Leaf(node))
    {
      hide HtmlTree.Valid, Represents, OneRoot;
      var _ := AppendToCurrent(node);
      st := AppendLeaf(st, Leaf(node));
    }

    /** The walk stands at top exactly when it is at the root. */
    lemma Here(i: TreeNode, top: TreeNode, k: nat)
      requires Valid() && i in tree.nodes && top in tree.nodes && k < |spine|
      requires i.id == spine[k] && top.id == spine[0]
      ensures i == top <==> k == 0
    {
      hide HtmlTree.Valid, Represents, OneRoot;
      SpineFacts(tree.forest, spine, st, tree.head.id, tree.feet.id, k);
      if k == 0 {
        tree.SameNode(i, top);
      }
    }

    /** The close-tag walk: up from the current element to the one that the
        tag closes. path is what it passes, k where it ends; 0 says that no
        open element matches. */
    method FindOpen(name: string) returns (found: bool, i: TreeNode, path: seq<TreeNode>, ghost k: nat)
      requires Valid()
      ensures k < |st| && k == Match(st, name) && (found <==> k > 0)
      ensures i in tree.nodes && i.id == spine[k]
      ensures |path| == |st| - 1 - k
      ensures forall t :: 0 <= t < |path| ==> path[t] in tree.nodes && path[t].id == spine[|st|-1-t]
    {
      hide HtmlTree.Valid, Represents, OneRoot;
      RepresentsParts(tree.forest, spine, st);
      found, i, path, k := false, current, [], |st| - 1;
      var top := tree.Begin();
      RootPlace(tree.forest, tree.head.id, tree.feet.id, spine[0]);
      Here(i, top, k);
      while i != top
        invariant !found && k < |st| && (i == top <==> k == 0)
        invariant k < |st| && i in tree.nodes && i.id == spine[k]
        invariant |path| == |st| - 1 - k
        invariant forall t :: 0 <= t < |path| ==> path[t] in tree.nodes && path[t].id == spine[|st|-1-t]
        invariant forall t :: k < t < |st| ==> !EqualsIgnoreCase(st[t].node.tagName, name)
        decreases k
      {
        tree.LinksOf(i);
        SpineFacts(tree.forest, spine, st, tree.head.id, tree.feet.id, k);
        assert i.data.isTag && i.data.tagName != "";
        if EqualsIgnoreCase(i.data.tagName, name) {
          found := true;
          break;
        }
        path := path + [i];
        i := i.parent;
        k := k - 1;
        Here(i, top, k);
      }
      MatchIs(st, name, k);
    }

    /** flatten for each element of path, the innermost first. */
    method GiveUp(path: seq<TreeNode>)
      requires tree.Valid() && Represents(tree.forest, spine, st) && |path| < |st|
      requires OneRoot(tree.forest, tree.head.id, tree.feet.id, spine[0])
      requires |spine| == |st| && forall t :: 0 <= t < |path| ==> path[t] in tree.nodes && path[t].id == spine[|st|-1-t]
      modifies tree`forest, tree`heap, tree.nodes
      ensures tree.Valid() && OneRoot(tree.forest, tree.head.id, tree.feet.id, spine[0])
      ensures Represents(tree.forest, spine[..|spine|-|path|], Collapsed(st, |st| - 1 - |path|))
    {
      hide HtmlTree.Valid, Represents, OneRoot, WF, Domains, Flattened, Collapsed;
      CollapsedTop(st);
      assert spine[..|spine|] == spine;
      for j := 0 to |path|
        invariant tree.Valid() && OneRoot(tree.forest, tree.head.id, tree.feet.id, spine[0])
        invariant Represents(tree.forest, spine[..|spine|-j], Collapsed(st, |st| - 1 - j))
      {
        GiveUpOne(tree.forest, spine, st, tree.head.id, tree.feet.id, j);
        tree.Flatten(path[j]);
      }
    }

    method CloseTag(node: HtmlNode, i: TreeNode, path: seq<TreeNode>, ghost k: nat)
      requires Valid() && 0 < k < |st| && |path| == |st| - 1 - k && i in tree.nodes && i.id == spine[k]
      requires forall t :: 0 <= t < |path| ==> path[t] in tree.nodes && path[t].id == spine[|st|-1-t]
      modifies this`current, this`spine, this`st, tree`forest, tree`heap, tree.nodes
      ensures Valid() && st == CloseAt(old(st), k, node)
    {
      hide HtmlTree.Valid, Represents, OneRoot, WF, Domains, Tags, CloseAt, Collapsed;
      RepresentsParts(tree.forest, spine, st);
      tree.LinksOf(i);
      SpineFacts(tree.forest, spine, st, tree.head.id, tree.feet.id, k);
      CloseData(tree.forest, spine, st, tree.head.id, tree.feet.id, k, Closed(st[k].node, node));
      tree.AssignData(i, i.data.(length := node.offset + node.length - i.data.offset, closingText := node.text));
      current := i.parent;
      ghost var open := st;
      st := st[k := Frame(Closed(st[k].node, node), st[k].kids)];
      GiveUp(path);
      CloseFinished(tree.forest, spine, open, k, node);
      TagsStay(open, k, node);
      spine, st := spine[..k], CloseAt(open, k, node);
    }

    method OpenTag(node: HtmlNode)
      requires Valid() && node.isTag && node.tagName != ""
      modifies this`current, this`spine, this`st, tree, tree.nodes
      ensures Valid() && fresh(tree.nodes - old(tree.nodes))
      ensures st == old(st) + [Frame(node, [])]
    {
      hide HtmlTree.Valid, Represents, OneRoot;
      RepresentsParts(tree.forest, spine, st);
      var nextState := AppendToCurrent(node);
      current := nextState;
      spine, st := spine + [nextState.id], st + [Frame(node, [])];
    }

    method FoundTag(node: HtmlNode, isEnd: bool)
      requires Valid() && node.isTag && node.tagName != ""
      modifies this`current, this`spine, this`st, tree, tree.nodes
      ensures Valid() && fresh(tree.nodes - old(tree.nodes))
      ensures st == Step(old(st), Event.FoundTag(node, isEnd))
    {
      hide HtmlTree.Valid, Represents, OneRoot, CloseAt;
      if !isEnd {
        OpenTag(node);
      } else {
        ghost var k;
        var found, i, path;
        found, i, path, k := FindOpen(node.tagName);
        if found {
          CloseTag(node, i, path, k);
        } else {
          // Treat as comment.
          var _ := AppendToCurrent(node.(isTag := false, isComment := true));
          st := AppendLeaf(st, Leaf(node.(isTag := false, isComment := true)));
        }
      }
    }

    method EndParsing(currentOffset: nat)
      requires Valid()
      modifies this`st, tree`forest, tree`heap, tree.nodes
      ensures tree.Valid() && st == Finish(old(st), currentOffset)
      ensures Represents(tree.forest, spine, st) && spine != []
              && OneRoot(tree.forest, tree.head.id, tree.feet.id, spine[0])
    {
      hide HtmlTree.Valid, Represents, OneRoot, WF, Tags;
      RepresentsParts(tree.forest, spine, st);
      SpineFacts(tree.forest, spine, st, tree.head.id, tree.feet.id, 0);
      RootPlace(tree.forest, tree.head.id, tree.feet.id, spine[0]);
      var top := tree.Begin();
      tree.LinksOf(top);
      RepresentsData(tree.forest, spine, st, 0, top.data.(length := currentOffset));
      RootStaysData(tree.forest, tree.head.id, tree.feet.id, spine[0], top.id, top.data.(length := currentOffset));
      tree.AssignData(top, top.data.(length := currentOffset));
      st := Finish(st, currentOffset);
    }

    /** The callbacks, in the order in which the tokenizer makes them. */
    method Deliver(events: seq<Event>)
      requires Valid() && AllWellShaped(events)
      modifies this`current, this`spine, this`st, tree, tree.nodes
      ensures Valid() && fresh(tree.nodes - old(tree.nodes))
      ensures st == Run(old(st), events)
    {
      hide HtmlTree.Valid, Represents, OneRoot, Step;
      RepresentsParts(tree.forest, spine, st);
      var i := 0;
      while i < |events|
        invariant 0 <= i <= |events|
        invariant Valid() && fresh(tree.nodes - old(tree.nodes))
        invariant st == Run(old(st), events[..i])
      {
        assert events[..i+1][..i] == events[..i] && WellShaped(events[i]);
        Dispatch(events[i]);
        i := i + 1;
      }
      assert events[..|events|] == events;
    }

    method Dispatch(e: Event)
      requires Valid() && WellShaped(e)
      modifies this`current, this`spine, this`st, tree, tree.nodes
      ensures Valid() && fresh(tree.nodes - old(tree.nodes))
      ensures st == Step(old(st), e)
    {
      hide HtmlTree.Valid, Represents, OneRoot, Tags, CloseAt;
      match e
      case FoundTag(node, isEnd) => FoundTag(node, isEnd);
      case FoundText(node) => FoundText(node);
      case FoundComment(node) => FoundComment(node);
    }

    /** The whole parse: the linked tree that is left stands for the tree of
        the input, so writing it out gives the input back. */
    method ParseTree(html: string)
      requires tree.Valid()
      modifies this, tree, tree.nodes
      ensures tree.Valid() && Represents(tree.forest, spine, ParseStack(html))
      ensures spine != [] && spine[0] in tree.forest.par && TreeOf(tree.forest, spine[0]) == DomModel.ParseTree(html)
      ensures Serialize(TreeOf(tree.forest, spine[0])) == html
      ensures OneRoot(tree.forest, tree.head.id, tree.feet.id, spine[0]) && fresh(tree.nodes - old(tree.nodes))
    {
      hide HtmlTree.Valid, Represents, Run, Finish, Step, WF, Serialize, Tokens, OneRoot, Zip, Tags, TreeOf,
           AllWellShaped, NoAdjacentText;
      BeginParsing();
      var sax := new ParserSax();
      sax.Parse(html);
      TokensWellShaped(html, 0, None);
      Deliver(sax.events);
      EndParsing(sax.currentOffset);
      RepresentsParts(tree.forest, spine, st);
      RepresentsZip(tree.forest, spine, st, 0);
      assert st[0..] == st;
      LosslessParse(html);
    }
  }
}
