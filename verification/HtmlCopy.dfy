/** libhtmlparser/tree.h: copies of subtrees and of whole trees. */
module HtmlCopies {
  import opened HtmlNodes
  import opened Forests
  import opened ForestErase
  import opened ForestOrder
  import opened ForestCopy
  import opened CopyWalk
  import opened HtmlLinks
  import opened HtmlTrees
  import opened HtmlIterators
  import opened Seqs

  /** A copy grows below r in tree: made are its nodes, the others are rest.
      Away from it tree is what f1 was, and below s src is what f0 was. */
  ghost predicate Growing(tree: HtmlTree, src: HtmlTree, f0: Forest, s: Id, f1: Forest, r: Id,
                          rest: set<TreeNode>, made: set<TreeNode>)
    reads tree, tree.nodes, src, src.nodes
  {
    && tree.Valid() && src.Valid() && (src == tree || src.nodes !! tree.nodes)
    && Grown(tree, f1, r, rest, made) && Watched(tree, src, f0, s, r)
  }

  ghost predicate Grown(tree: HtmlTree, f1: Forest, r: Id, rest: set<TreeNode>, made: set<TreeNode>)
    reads tree, tree.nodes
  {
    && SameRest(f1, r, tree.forest, r) && tree.nodes == rest + made && rest !! made
    && (forall n {:trigger n in made} | n in tree.nodes :: n in made <==> n.id in Subtree(tree.forest, r))
    && tree.head.id !in Subtree(tree.forest, r) && tree.feet.id !in Subtree(tree.forest, r)
  }

  ghost predicate Watched(tree: HtmlTree, src: HtmlTree, f0: Forest, s: Id, r: Id)
    reads tree, src
  {
    && WF(f0) && WF(src.forest) && WF(tree.forest) && s in f0.par && Follows(f0, src.forest, s)
    && (src == tree ==> Subtree(f0, s) !! Subtree(tree.forest, r))
  }

  /** append_child on behalf of the copy. */
  method Grow(tree: HtmlTree, src: HtmlTree, w: TreeNode, x: HtmlNode, ghost f0: Forest, ghost s: Id,
              ghost f1: Forest, ghost r: Id, ghost rest: set<TreeNode>, ghost made: set<TreeNode>)
    returns (tmp: TreeNode)
    requires Growing(tree, src, f0, s, f1, r, rest, made) && w in tree.nodes && w.id in Subtree(tree.forest, r)
    modifies tree`forest, tree`heap, tree`at, tree`nodes, tree.nodes
    ensures Growing(tree, src, f0, s, f1, r, rest, made + {tmp}) && fresh(tmp) && tmp in tree.nodes
    ensures old(Domains(tree.forest) && w.id in tree.forest.kids && tree.forest.bound !in tree.forest.par
            && tree.forest.bound != TOP)
    ensures tmp.id == old(tree.forest.bound) && tree.forest == Appended(old(tree.forest), w.id, tmp.id, x)
    ensures old(tree.nodes) <= tree.nodes
            && (src != tree ==> src.forest == old(src.forest) && src.nodes == old(src.nodes))
  {
    hide HtmlTree.Valid, Follows, Subtree, SameRest, Appended, WF;
    tree.BoundIsFree();
    tree.LinksOf(w);
    ghost var f, n := tree.forest, tree.forest.bound;
    RestParts(f1, r, f, r);
    AppendedRest(f, r, w.id, n, x);
    RestChain(f1, r, f, r, Appended(f, w.id, n, x), r);
    SubtreeAppended(f, w.id, n, x, r);
    if src == tree {
      FollowsAppended(f0, f, s, r, w.id, n, x);
    }
    forall m | m in tree.nodes
      ensures m.id in f.par
    {
      tree.LinksOf(m);
    }
    tmp := tree.AppendChild(w, x);
    assert Grown(tree, f1, r, rest, made + {tmp});
    assert Watched(tree, src, f0, s, r);
    assert src.Valid();
  }

  /** The links and the datum of a node of the source, in terms of f0. */
  lemma SourceLinks(tree: HtmlTree, src: HtmlTree, f0: Forest, s: Id, r: Id, n: TreeNode)
    requires src.Valid() && Watched(tree, src, f0, s, r) && n in src.nodes && n.id in Subtree(f0, s)
    ensures n.id in f0.par && n.id in f0.kids && n.id in f0.data && n.data == f0.data[n.id]
    ensures PointsTo(src.nodes, n.firstChild, First(f0.kids[n.id]))
    ensures PointsTo(src.nodes, n.nextSibling, NextSibling(f0, n.id))
    ensures PointsTo(src.nodes, n.parent, f0.par[n.id])
    ensures n.firstChild == null <==> f0.kids[n.id] == []
  {
    hide HtmlTree.Valid, Subtree, WF, NextSibling;
    assert FollowsAt(f0, src.forest, n.id);
    InKids(f0, n.id);
    LinkIds(src, n);
    src.LinksOf(n);
  }

  /** The walk has come to cur, the copy to toit. */
  ghost predicate Walking(tree: HtmlTree, src: HtmlTree, f0: Forest, s: Id, r: Id, cur: TreeNode?, toit: TreeNode?)
    requires WF(f0) && WF(tree.forest)
    reads tree, src
  {
    && cur != null && toit != null && cur in src.nodes && toit in tree.nodes
    && cur.id in f0.par && cur.id in Subtree(f0, s) && toit.id in tree.forest.par && toit.id in Subtree(tree.forest, r)
    && Spine(f0, s, cur.id, tree.forest, r, toit.id)
  }

  lemma WalkingWhen(tree: HtmlTree, src: HtmlTree, f0: Forest, s: Id, r: Id, cur: TreeNode, toit: TreeNode)
    requires WF(f0) && WF(tree.forest) && cur in src.nodes && toit in tree.nodes
    requires Spine(f0, s, cur.id, tree.forest, r, toit.id)
    ensures Walking(tree, src, f0, s, r, cur, toit)
  {
    hide Subtree, WF;
    SpineData(f0, s, cur.id, tree.forest, r, toit.id);
    SpineUnder(f0, s, cur.id, tree.forest, r, toit.id);
  }

  /** One step down: the first child is copied. */
  method GoDown(tree: HtmlTree, src: HtmlTree, cur: TreeNode, toit: TreeNode, ghost f0: Forest, ghost s: Id,
                ghost f1: Forest, ghost r: Id, ghost rest: set<TreeNode>, ghost made: set<TreeNode>)
    returns (c: TreeNode, t: TreeNode)
    requires Growing(tree, src, f0, s, f1, r, rest, made) && Walking(tree, src, f0, s, r, cur, toit)
    requires cur.firstChild != null && toit.id in tree.forest.kids && tree.forest.kids[toit.id] == []
    modifies tree`forest, tree`heap, tree`at, tree`nodes, tree.nodes
    ensures Growing(tree, src, f0, s, f1, r, rest, made + {t}) && Walking(tree, src, f0, s, r, c, t)
    ensures t.id in tree.forest.kids && tree.forest.kids[t.id] == [] && fresh(t) && old(src.nodes) <= src.nodes
    ensures cur.id in f0.par && c.id in f0.par && |Tail(f0, c.id)| < |Tail(f0, cur.id)|
    ensures c.id != NextSibling(f0, s)
  {
    hide HtmlTree.Valid, Subtree, WF, NextSibling, Tail, Growing, Spine, Appended, Follows, SameRest, Grown;
    assert src.Valid() && tree.Valid() && Watched(tree, src, f0, s, r) by {
      GrowingParts(tree, src, f0, s, f1, r, rest, made);
    }
    SourceLinks(tree, src, f0, s, r, cur);
    tree.BoundIsFree();
    FirstKid(f0, cur.id);
    c := cur.firstChild;
    InnerKid(f0, s, cur.id, c.id);
    SourceLinks(tree, src, f0, s, r, c);
    SeekDown(f0, cur.id);
    WalkDown(f0, s, cur.id, tree.forest, r, toit.id, tree.forest.bound);
    t := Grow(tree, src, toit, c.data, f0, s, f1, r, rest, made);
    GrowingParts(tree, src, f0, s, f1, r, rest, made + {t});
    WalkingWhen(tree, src, f0, s, r, c, t);
  }

  lemma GrowingParts(tree: HtmlTree, src: HtmlTree, f0: Forest, s: Id, f1: Forest, r: Id,
                     rest: set<TreeNode>, made: set<TreeNode>)
    requires Growing(tree, src, f0, s, f1, r, rest, made)
    ensures tree.Valid() && src.Valid() && Watched(tree, src, f0, s, r) && tree.nodes == rest + made
    ensures WF(f0) && WF(tree.forest) && s in f0.par && WF(src.forest)
    ensures src == tree || src.nodes !! tree.nodes
  {
  }

  /** What is inside the subtree at s is neither s nor the sibling behind s. */
  lemma InnerKid(f: Forest, s: Id, c: Id, d: Id)
    requires WF(f) && s in f.par && c in f.par && c in Subtree(f, s) && d in f.par && f.par[d] == c
    ensures d in Subtree(f, s) && d != s && d != NextSibling(f, s)
  {
    hide Subtree, NextSibling;
    SubtreeCloses(f, s, d);
    SubtreeCloses(f, s, s);
    if NextSibling(f, s) != TOP {
      NextIs(f, s);
    } else {
      TopIsNone(f);
    }
  }

  lemma TopIsNone(f: Forest)
    requires WF(f)
    ensures TOP !in f.par
  {
  }

  /** The inner loop: up to the nearest node that has a next sibling, or to
      the root of the subtree. All that is left behind is done. */
  method GoUp(tree: HtmlTree, src: HtmlTree, from: TreeNode, cur: TreeNode, toit: TreeNode, ghost f0: Forest,
      ghost r: Id)
    returns (c: TreeNode, t: TreeNode)
    requires tree.Valid() && src.Valid() && Watched(tree, src, f0, from.id, r) && from in src.nodes
    requires Walking(tree, src, f0, from.id, r, cur, toit) && Done(f0, cur.id, tree.forest, toit.id)
    ensures Walking(tree, src, f0, from.id, r, c, t) && Done(f0, c.id, tree.forest, t.id)
    ensures c == from || c.nextSibling != null
    ensures cur.id in f0.par && c.id in f0.par && |After(f0, c.id)| == |After(f0, cur.id)|
  {
    hide HtmlTree.Valid, Subtree, WF, NextSibling, After, Spine, Follows, Done;
    c, t := cur, toit;
    RankKnown(f0, cur.id);
    while c.nextSibling == null && c != from
      invariant Walking(tree, src, f0, from.id, r, c, t) && Done(f0, c.id, tree.forest, t.id)
      invariant c.id in f0.par && c.id in f0.rank && |After(f0, c.id)| == |After(f0, cur.id)|
      decreases f0.rank[c.id]
    {
      NotRoot(src, c, from);
      SourceLinks(tree, src, f0, from.id, r, c);
      tree.LinksOf(t);
      WalkUp(f0, from.id, c.id, tree.forest, r, t.id);
      SeekUp(f0, c.id);
      c, t := c.parent, t.parent;
      RankKnown(f0, c.id);
      WalkingWhen(tree, src, f0, from.id, r, c, t);
    }
  }

  lemma RankKnown(f: Forest, n: Id)
    requires WF(f) && n in f.par
    ensures n in f.rank
  {
  }

  lemma NotRoot(src: HtmlTree, c: TreeNode, from: TreeNode)
    requires src.Valid() && c in src.nodes && from in src.nodes && c != from
    ensures c.id != from.id
  {
    hide HtmlTree.Valid;
    if c.id == from.id {
      src.SameNode(c, from);
    }
  }

  /** Over to the next sibling, which is copied. */
  method GoOver(tree: HtmlTree, src: HtmlTree, c: TreeNode, toit: TreeNode, ghost f0: Forest, ghost s: Id,
                ghost f1: Forest, ghost r: Id, ghost rest: set<TreeNode>, ghost made: set<TreeNode>)
    returns (d: TreeNode, t: TreeNode)
    requires Growing(tree, src, f0, s, f1, r, rest, made) && Walking(tree, src, f0, s, r, c, toit)
    requires Done(f0, c.id, tree.forest, toit.id) && c.id != s && c.nextSibling != null
    modifies tree`forest, tree`heap, tree`at, tree`nodes, tree.nodes
    ensures Growing(tree, src, f0, s, f1, r, rest, made + {t}) && Walking(tree, src, f0, s, r, d, t)
    ensures t.id in tree.forest.kids && tree.forest.kids[t.id] == [] && fresh(t) && old(src.nodes) <= src.nodes
    ensures c.id in f0.par && d.id in f0.par && |Tail(f0, d.id)| < |After(f0, c.id)|
    ensures d.id != NextSibling(f0, s)
  {
    hide HtmlTree.Valid, Subtree, WF, NextSibling, Tail, After, Growing, Spine, Appended, Follows, SameRest, Grown,
         Done;
    GrowingParts(tree, src, f0, s, f1, r, rest, made);
    SourceLinks(tree, src, f0, s, r, c);
    tree.BoundIsFree();
    d := c.nextSibling;
    NextIs(f0, c.id);
    SpineLevel(f0, s, c.id, tree.forest, r, toit.id);
    SpineUnder(f0, s, f0.par[c.id], tree.forest, r, tree.forest.par[toit.id]);
    InnerKid(f0, s, f0.par[c.id], d.id);
    SourceLinks(tree, src, f0, s, r, d);
    SeekSide(f0, c.id);
    WalkSide(f0, s, c.id, tree.forest, r, toit.id, tree.forest.bound);
    tree.LinksOf(toit);
    t := Grow(tree, src, toit.parent, d.data, f0, s, f1, r, rest, made);
    GrowingParts(tree, src, f0, s, f1, r, rest, made + {t});
    WalkingWhen(tree, src, f0, s, r, d, t);
  }

  /** At a leaf: up, and over to the next sibling, unless all is copied. */
  method GoOn(tree: HtmlTree, src: HtmlTree, from: TreeNode, cur: TreeNode, toit: TreeNode, last: TreeNode?,
              ghost f0: Forest, ghost f1: Forest, ghost r: Id, ghost rest: set<TreeNode>, ghost made: set<TreeNode>)
    returns (d: TreeNode?, t: TreeNode, ghost more: set<TreeNode>)
    requires Growing(tree, src, f0, from.id, f1, r, rest, made) && Walking(tree, src, f0, from.id, r, cur, toit)
    requires from in src.nodes && PointsTo(src.nodes, last, NextSibling(f0, from.id)) && cur.firstChild == null
    requires toit.id in tree.forest.kids && tree.forest.kids[toit.id] == []
    modifies tree`forest, tree`heap, tree`at, tree`nodes, tree.nodes
    ensures Growing(tree, src, f0, from.id, f1, r, rest, more) && old(src.nodes) <= src.nodes
    ensures made <= more && fresh(more - made)
    ensures d == last ==> WF(tree.forest) && Done(f0, from.id, tree.forest, r)
    ensures d != last ==>
      && WF(tree.forest) && Walking(tree, src, f0, from.id, r, d, t)
      && t.id in tree.forest.kids && tree.forest.kids[t.id] == []
      && cur.id in f0.par && |Tail(f0, d.id)| < |Tail(f0, cur.id)|
  {
    hide HtmlTree.Valid, Subtree, WF, NextSibling, Tail, After, Growing, Spine, Follows, SameRest, Grown, Done, Watched;
    ghost var s := from.id;
    GrowingParts(tree, src, f0, s, f1, r, rest, made);
    SourceLinks(tree, src, f0, s, r, cur);
    LeafDone(f0, s, cur.id, tree.forest, r, toit.id);
    SeekDown(f0, cur.id);
    var c;
    c, t := GoUp(tree, src, from, cur, toit, f0, r);
    more := made;
    if c == from {
      WalkEnd(f0, s, tree.forest, r, t.id);
      LastAgain(tree, src, f0, from, r, last);
    } else {
      NotLast(tree, src, f0, from, r, c, t);
    }
    d := c.nextSibling;
    if d != last {
      NotRoot(src, c, from);
      d, t := GoOver(tree, src, c, t, f0, s, f1, r, rest, made);
      more := made + {t};
      GrowingParts(tree, src, f0, s, f1, r, rest, more);
    }
  }

  /** The loop of replace: the subtree at from is copied below tmp. */
  method CopyBelow(tree: HtmlTree, src: HtmlTree, from: TreeNode, tmp: TreeNode, ghost f0: Forest, ghost f1: Forest,
                   ghost rest: set<TreeNode>)
    returns (ghost made: set<TreeNode>)
    requires Growing(tree, src, f0, from.id, f1, tmp.id, rest, {tmp}) && from in src.nodes && tmp in tree.nodes
    requires tmp.id in tree.forest.kids && tree.forest.kids[tmp.id] == [] && tmp.id in tree.forest.data
    requires from.id in f0.data && tree.forest.data[tmp.id] == f0.data[from.id]
    modifies tree`forest, tree`heap, tree`at, tree`nodes, tree.nodes
    ensures Growing(tree, src, f0, from.id, f1, tmp.id, rest, made) && tmp in made && fresh(made - {tmp})
    ensures WF(f0) && WF(tree.forest) && Done(f0, from.id, tree.forest, tmp.id)
  {
    hide HtmlTree.Valid, Subtree, WF, NextSibling, Tail, After, Growing, Spine, Follows, SameRest, Grown, Done, Watched;
    ghost var s, r := from.id, tmp.id;
    made := {tmp};
    GrowingParts(tree, src, f0, s, f1, r, rest, made);
    tree.LinksOf(tmp);
    WalkStart(tree, src, f0, from, tmp);
    SourceLinks(tree, src, f0, s, r, from);
    var last := from.nextSibling;
    var cur: TreeNode?, toit := from, tmp;
    var going := true;
    while going
      invariant Growing(tree, src, f0, s, f1, r, rest, made) && tmp in made && fresh(made - {tmp})
      invariant WF(f0) && WF(tree.forest) && from in src.nodes
      invariant PointsTo(src.nodes, last, NextSibling(f0, s))
      invariant going ==>
                  && Walking(tree, src, f0, s, r, cur, toit)
                  && toit.id in tree.forest.kids && tree.forest.kids[toit.id] == []
      invariant !going ==> Done(f0, s, tree.forest, r)
      decreases going, if going then |Tail(f0, cur.id)| else 0
    {
      GrowingParts(tree, src, f0, s, f1, r, rest, made);
      SourceLinks(tree, src, f0, s, r, cur);
      if cur.firstChild != null {
        cur, toit := GoDown(tree, src, cur, toit, f0, s, f1, r, rest, made);
        made := made + {toit};
      } else {
        cur, toit, made := GoOn(tree, src, from, cur, toit, last, f0, f1, r, rest, made);
      }
      GrowingParts(tree, src, f0, s, f1, r, rest, made);
      going := cur != last;
    }
  }

  lemma WalkStart(tree: HtmlTree, src: HtmlTree, f0: Forest, from: TreeNode, tmp: TreeNode)
    requires WF(f0) && WF(tree.forest) && from.id in f0.par && tmp.id in tree.forest.par
    requires from in src.nodes && tmp in tree.nodes && f0.data[from.id] == tree.forest.data[tmp.id]
    ensures Walking(tree, src, f0, from.id, tmp.id, from, tmp)
  {
  }

  /** Away from the root, the next sibling is still inside. */
  lemma NotLast(tree: HtmlTree, src: HtmlTree, f0: Forest, from: TreeNode, r: Id, c: TreeNode, t: TreeNode)
    requires src.Valid() && Watched(tree, src, f0, from.id, r) && from in src.nodes
    requires Walking(tree, src, f0, from.id, r, c, t) && c != from && c.nextSibling != null
    ensures c.nextSibling.id != NextSibling(f0, from.id)
  {
    hide HtmlTree.Valid, Subtree, WF, NextSibling, Follows;
    NotRoot(src, c, from);
    SourceLinks(tree, src, f0, from.id, r, c);
    NextIs(f0, c.id);
    SpineLevel(f0, from.id, c.id, tree.forest, r, t.id);
    SpineUnder(f0, from.id, f0.par[c.id], tree.forest, r, tree.forest.par[t.id]);
    InnerKid(f0, from.id, f0.par[c.id], c.nextSibling.id);
  }

  /** Back at the root, its next sibling is still the one it was. */
  lemma LastAgain(tree: HtmlTree, src: HtmlTree, f0: Forest, from: TreeNode, r: Id, last: TreeNode?)
    requires src.Valid() && Watched(tree, src, f0, from.id, r) && from in src.nodes
    requires PointsTo(src.nodes, last, NextSibling(f0, from.id))
    ensures from.nextSibling == last
  {
    hide HtmlTree.Valid, Subtree, WF, NextSibling, Follows;
    InOwn(f0, from.id);
    SourceLinks(tree, src, f0, from.id, r, from);
    if last != null {
      src.SameNode(last, from.nextSibling);
    }
  }

  /** Neither subtree holds the other's root. */
  ghost predicate Beside(f: Forest, n: Id, s: Id)
    requires WF(f)
  {
    n in f.par && s in f.par && s !in Subtree(f, n) && n !in Subtree(f, s)
  }

  /** How things stand when the copy is one node. */
  lemma GrowingStarts(tree: HtmlTree, src: HtmlTree, s: Id, tmp: TreeNode, rest: set<TreeNode>)
    requires tree.Valid() && src.Valid() && (src == tree || src.nodes !! tree.nodes)
    requires tree.nodes == rest + {tmp} && tmp !in rest && tmp.id in tree.forest.kids && tree.forest.kids[tmp.id] == []
    requires tmp != tree.head && tmp != tree.feet && s in src.forest.par
    requires WF(src.forest) && (src == tree ==> tmp.id !in Subtree(tree.forest, s))
    ensures WF(tree.forest) && Growing(tree, src, src.forest, s, tree.forest, tmp.id, rest, {tmp})
  {
    hide HtmlTree.Valid, WF, Follows, Erased, Subtree;
    tree.BoundIsFree();
    tree.LinksOf(tmp);
    LeafBelow(tree.forest, tmp.id);
    FollowsItself(src.forest, s);
    forall n | n in tree.nodes
      ensures n in {tmp} <==> n.id in Subtree(tree.forest, tmp.id)
    {
      if n.id == tmp.id {
        tree.SameNode(n, tmp);
      }
    }
    tree.OtherNode(tmp, tree.head);
    tree.OtherNode(tmp, tree.feet);
    RestItself(tree.forest, tmp.id);
  }

  /** What is copied is there when the place for it is made. */
  lemma SourceStays(f: Forest, n: Id, t: Id, x: HtmlNode, s: Id)
    requires WF(f) && Beside(f, n, s) && t !in f.par && t != TOP
    ensures var g := Replaced(f, n, t, x);
            && WF(g) && s in g.par && s in g.data && s in f.data
            && TreeOf(g, s) == TreeOf(f, s) && t !in Subtree(g, s) && g.data[s] == f.data[s]
  {
    hide WF, Subtree, Replaced, Erased;
    ReplacedIs(f, n, t, x);
    RestTree(f, n, Replaced(f, n, t, x), t, s);
    RestFacts(f, n, Replaced(f, n, t, x), t, s);
    WFKeys(f);
    WFKeys(Replaced(f, n, t, x));
  }

  /** replace: the subtree at position gives way to a copy of the subtree at
      from, which may be in the same tree. */
  method Replace(tree: HtmlTree, position: TreeNode, src: HtmlTree, from: TreeNode) returns (tmp: TreeNode)
    requires tree.Valid() && src.Valid() && (src == tree || src.nodes !! tree.nodes)
    requires position in tree.nodes && position != tree.head && position != tree.feet && from in src.nodes
    requires src == tree ==> WF(tree.forest) && Beside(tree.forest, position.id, from.id)
    modifies tree`forest, tree`heap, tree`at, tree`nodes, tree.nodes
    ensures tree.Valid() && src.Valid() && tmp in tree.nodes && fresh(tmp)
    ensures old(WF(src.forest) && from.id in src.forest.par && WF(tree.forest))
    ensures SameRest(old(tree.forest), position.id, tree.forest, tmp.id)
    ensures TreeOf(tree.forest, tmp.id) == old(TreeOf(src.forest, from.id))
    ensures forall n {:trigger n.id} | n in tree.nodes :: fresh(n) <==> n.id in Subtree(tree.forest, tmp.id)
    ensures forall n | n in old(tree.nodes) :: n in tree.nodes <==> n.id !in old(Subtree(tree.forest, position.id))
    ensures forall n | n in tree.nodes :: n in old(tree.nodes) || fresh(n)
    ensures src != tree ==> src.forest == old(src.forest) && src.nodes == old(src.nodes) && src.nodes !! tree.nodes
  {
    hide HtmlTree.Valid, WF, Subtree, Replaced, Erased, Growing, SameRest, TreeOf;
    tree.BoundIsFree();
    src.BoundIsFree();
    src.LinksOf(from);
    tree.LinksOf(position);
    ghost var f, h := tree.forest, src.forest;
    ghost var n, s, t, x := position.id, from.id, tree.forest.bound, from.data;
    ReplacedIs(f, n, t, x);
    if src == tree {
      SourceStays(f, n, t, x, s);
    }
    tmp := tree.ReplaceByLeaf(position, from.data);
    ghost var f0, f1, rest := src.forest, tree.forest, tree.nodes - {tmp};
    GrowingStarts(tree, src, s, tmp, rest);
    ghost var made := CopyBelow(tree, src, from, tmp, f0, f1, rest);
    Finished(tree, src, f0, s, f1, tmp.id, rest, made);
    RestChain(f, n, f1, t, tree.forest, t);
  }

  lemma Finished(tree: HtmlTree, src: HtmlTree, f0: Forest, s: Id, f1: Forest, r: Id,
                 rest: set<TreeNode>, made: set<TreeNode>)
    requires Growing(tree, src, f0, s, f1, r, rest, made)
    ensures tree.Valid() && src.Valid() && WF(f0) && WF(tree.forest) && SameRest(f1, r, tree.forest, r)
    ensures tree.nodes == rest + made && rest !! made
    ensures forall n {:trigger n in made} | n in tree.nodes :: n in made <==> n.id in Subtree(tree.forest, r)
  {
  }

  // ----- whole trees ------------------------------------------------------

  /** Between the sentinels the same trees stand in the same order. */
  ghost predicate SameTrees(f: Forest, g: Forest)
    requires WF(f) && WF(g)
  {
    && TOP in f.kids && TOP in g.kids && |g.kids[TOP]| == |f.kids[TOP]|
    && forall j :: 0 < j < |f.kids[TOP]| - 1 ==> SameKid(f, TOP, g, TOP, j)
  }

  /** Whether n is a sentinel, by its place at the top level. */
  lemma SentinelPlace(tree: HtmlTree, n: TreeNode, i: nat)
    requires tree.Valid() && n in tree.nodes && tree.TopPlace(n, i)
    ensures TOP in tree.forest.kids && |tree.forest.kids[TOP]| >= 2 && i < |tree.forest.kids[TOP]|
    ensures n == tree.head <==> i == 0
    ensures n == tree.feet <==> i == |tree.forest.kids[TOP]| - 1
  {
    hide WF, Realizes, Mirrors, Numbered;
    tree.ValidParts();
    ConsistentParts(tree.heap, tree.forest, tree.head.id, tree.feet.id);
    TopKids(tree.forest, 0);
    TopKids(tree.forest, |tree.forest.kids[TOP]| - 1);
    if i == 0 {
      tree.SameNode(n, tree.head);
    }
    if i == |tree.forest.kids[TOP]| - 1 {
      tree.SameNode(n, tree.feet);
    }
  }

  /** it stands at the i-th node of the top level. */
  ghost predicate AtTop(it: PreOrderIterator, i: nat)
    reads it, it.tree
  {
    it.node != null && it.node in it.tree.nodes && it.tree.TopPlace(it.node, i)
  }

  /** begin, as an iterator. */
  method BeginIterator(tree: HtmlTree) returns (it: PreOrderIterator)
    requires tree.Valid()
    ensures fresh(it) && it.tree == tree && AtTop(it, 1)
  {
    var first := tree.Begin();
    it := new PreOrderIterator(tree, first);
  }

  lemma AtTopIs(it: PreOrderIterator, i: nat)
    requires it.tree.Valid() && AtTop(it, i)
    ensures it.node != null && it.node in it.tree.nodes && TOP in it.tree.forest.kids && i < |it.tree.forest.kids[TOP]|
    ensures it.node == it.tree.feet <==> i + 1 == |it.tree.forest.kids[TOP]|
  {
    hide HtmlTree.Valid;
    SentinelPlace(it.tree, it.node, i);
  }

  /** skip_children and ++, at the top level. */
  method NextTree(it: PreOrderIterator, ghost i: nat)
    requires it.tree.Valid() && AtTop(it, i) && TOP in it.tree.forest.kids && i + 1 < |it.tree.forest.kids[TOP]|
    modifies it
    ensures AtTop(it, i + 1)
  {
    hide HtmlTree.Valid, WF, Passed;
    it.tree.BoundIsFree();
    TopPassed(it.tree.forest, i);
    TopKids(it.tree.forest, i + 1);
    it.skipCurrentChildren := true;
    it.Next();
  }

  /** Nothing but the sentinels is older than this. */
  twostate predicate AllNew(tree: HtmlTree)
    reads tree
  {
    forall n | n in tree.nodes :: n == tree.head || n == tree.feet || fresh(n)
  }

  /** A node in front of the first tree. */
  method InsertTop(tree: HtmlTree, to: TreeNode, x: HtmlNode) returns (tmp: TreeNode)
    requires tree.Valid() && to in tree.nodes && tree.TopPlace(to, 1)
    modifies tree`forest, tree`heap, tree`at, tree`nodes, tree.nodes
    ensures tree.Valid() && tmp in tree.nodes && fresh(tmp) && tree.TopPlace(tmp, 1)
            && tree.nodes == old(tree.nodes) + {tmp}
    ensures TOP in tree.forest.kids && |tree.forest.kids[TOP]| == |old(tree.forest.kids[TOP])| + 1
  {
    hide HtmlTree.Valid, WF, Inserted;
    tree.BoundIsFree();
    SentinelPlace(tree, to, 1);
    TopInserted(tree.forest, tree.forest.bound, x);
    tmp := tree.Insert(to, x);
  }

  /** The first loop of copy_: a node for every tree of other. */
  method InsertTops(tree: HtmlTree, other: HtmlTree)
    requires tree.Valid() && other.Valid() && (other == tree || other.nodes !! tree.nodes)
    requires tree.nodes == {tree.head, tree.feet} && TOP in tree.forest.kids
    requires tree.forest.kids[TOP] == [tree.head.id, tree.feet.id]
    modifies tree`forest, tree`heap, tree`at, tree`nodes, tree.nodes
    ensures tree.Valid() && other.Valid() && (other == tree || other.nodes !! tree.nodes) && AllNew(tree)
    ensures TOP in tree.forest.kids && TOP in other.forest.kids && |tree.forest.kids[TOP]| == |other.forest.kids[TOP]|
    ensures other.forest == old(other.forest) && other.nodes == old(other.nodes)
    ensures other == tree ==> tree.nodes == old(tree.nodes)
  {
    hide HtmlTree.Valid, WF, HtmlTree.TopPlace;
    ghost var k := 0;
    var it := BeginIterator(other);
    var to := tree.Begin();
    SentinelPlace(other, it.node, 1);
    while it.node != other.feet
      invariant tree.Valid() && other.Valid() && (other == tree || other.nodes !! tree.nodes) && AllNew(tree)
      invariant it.tree == other && AtTop(it, k + 1) && fresh(it)
      invariant to in tree.nodes && tree.TopPlace(to, 1) && TOP in tree.forest.kids && TOP in other.forest.kids
      invariant |tree.forest.kids[TOP]| == k + 2
      invariant k + 2 <= |other.forest.kids[TOP]|
      invariant it.node == other.feet <==> k + 2 == |other.forest.kids[TOP]|
      invariant other.forest == old(other.forest) && other.nodes == old(other.nodes)
      invariant other == tree ==> it.node == other.feet && tree.nodes == old(tree.nodes)
      decreases |other.forest.kids[TOP]| - k
    {
      to := InsertTop(tree, to, it.node.data);
      NextTree(it, k + 1);
      k := k + 1;
      SentinelPlace(other, it.node, k + 1);
    }
  }

  /** One replacement at the top level. */
  method ReplaceTop(tree: HtmlTree, to: TreeNode, other: HtmlTree, from: TreeNode, ghost i: nat) returns (tmp: TreeNode)
    requires tree.Valid() && other.Valid() && other != tree && other.nodes !! tree.nodes
    requires WF(tree.forest) && WF(other.forest) && TOP in other.forest.kids
    requires to in tree.nodes && tree.TopPlace(to, i) && 0 < i && i + 1 < |tree.forest.kids[TOP]|
    requires from in other.nodes && other.TopPlace(from, i)
    requires forall j :: 0 < j < i ==> SameKid(other.forest, TOP, tree.forest, TOP, j)
    modifies tree`forest, tree`heap, tree`at, tree`nodes, tree.nodes
    ensures tree.Valid() && other.Valid() && other.nodes !! tree.nodes && WF(tree.forest)
    ensures other.forest == old(other.forest) && other.nodes == old(other.nodes)
    ensures tmp in tree.nodes && tree.TopPlace(tmp, i) && TOP in tree.forest.kids
            && |tree.forest.kids[TOP]| == |old(tree.forest.kids[TOP])|
    ensures forall j :: 0 < j < i + 1 ==> SameKid(other.forest, TOP, tree.forest, TOP, j)
    ensures forall n | n in tree.nodes :: n in old(tree.nodes) || fresh(n)
  {
    hide HtmlTree.Valid, WF, SameRest, SameKid, Subtree, TreeOf;
    SentinelPlace(tree, to, i);
    ghost var f, n := tree.forest, to.id;
    tmp := Replace(tree, to, other, from);
    RestParts(f, n, tree.forest, tmp.id);
    TopRest(f, n, tree.forest, tmp.id);
    TopsNext(f, n, tree.forest, tmp.id, other.forest, i);
  }

  /** The body of the second loop. */
  method ReplaceAndGoOn(to: PreOrderIterator, it: PreOrderIterator, ghost i: nat)
    requires it != to && it.tree != to.tree && to.tree.Valid() && it.tree.Valid() && it.tree.nodes !! to.tree.nodes
    requires WF(to.tree.forest) && WF(it.tree.forest) && TOP in it.tree.forest.kids && TOP in to.tree.forest.kids
    requires AtTop(to, i) && AtTop(it, i) && 0 < i && i + 1 < |to.tree.forest.kids[TOP]| == |it.tree.forest.kids[TOP]|
    requires forall j :: 0 < j < i ==> SameKid(it.tree.forest, TOP, to.tree.forest, TOP, j)
    modifies to, it, to.tree`forest, to.tree`heap, to.tree`at, to.tree`nodes, to.tree.nodes
    ensures to.tree.Valid() && it.tree.Valid() && it.tree.nodes !! to.tree.nodes && WF(to.tree.forest)
    ensures it.tree.forest == old(it.tree.forest) && it.tree.nodes == old(it.tree.nodes)
    ensures AtTop(to, i + 1) && AtTop(it, i + 1) && TOP in to.tree.forest.kids
    ensures |to.tree.forest.kids[TOP]| == |old(to.tree.forest.kids[TOP])|
    ensures forall j :: 0 < j < i + 1 ==> SameKid(it.tree.forest, TOP, to.tree.forest, TOP, j)
    ensures forall n | n in to.tree.nodes :: n in old(to.tree.nodes) || fresh(n)
  {
    hide HtmlTree.Valid, WF, SameKid;
    to.node := ReplaceTop(to.tree, to.node, it.tree, it.node, i);
    NextTree(to, i);
    NextTree(it, i);
  }

  /** The second loop: every node gives way to a copy of its tree. */
  method ReplaceTops(tree: HtmlTree, other: HtmlTree)
    requires tree.Valid() && other.Valid() && (other == tree || other.nodes !! tree.nodes)
    requires TOP in tree.forest.kids && TOP in other.forest.kids && |tree.forest.kids[TOP]| == |other.forest.kids[TOP]|
    requires other == tree ==> |tree.forest.kids[TOP]| == 2
    modifies tree`forest, tree`heap, tree`at, tree`nodes, tree.nodes
    ensures tree.Valid() && other.Valid() && WF(tree.forest) && WF(other.forest) && SameTrees(other.forest, tree.forest)
    ensures other.forest == old(other.forest) && other.nodes == old(other.nodes)
    ensures forall n | n in tree.nodes :: n in old(tree.nodes) || fresh(n)
  {
    hide HtmlTree.Valid, WF, SameKid, HtmlTree.TopPlace, AtTop;
    ghost var i := 1;
    var to := BeginIterator(tree);
    var it := BeginIterator(other);
    AtTopIs(it, 1);
    tree.BoundIsFree();
    other.BoundIsFree();
    while it.node != other.feet
      invariant tree.Valid() && other.Valid() && (other == tree || other.nodes !! tree.nodes)
      invariant WF(tree.forest) && WF(other.forest) && TOP in tree.forest.kids && TOP in other.forest.kids
      invariant fresh(it) && fresh(to) && it != to && it.tree == other && to.tree == tree
      invariant AtTop(it, i) && AtTop(to, i) && i >= 1
      invariant |tree.forest.kids[TOP]| == |other.forest.kids[TOP]| && i < |other.forest.kids[TOP]|
      invariant it.node == other.feet <==> i + 1 == |other.forest.kids[TOP]|
      invariant forall j :: 0 < j < i ==> SameKid(other.forest, TOP, tree.forest, TOP, j)
      invariant other.forest == old(other.forest) && other.nodes == old(other.nodes)
      invariant other == tree ==> it.node == other.feet
      invariant forall n | n in tree.nodes :: n in old(tree.nodes) || fresh(n)
      decreases |other.forest.kids[TOP]| - i
    {
      ReplaceAndGoOn(to, it, i);
      i := i + 1;
      AtTopIs(it, i);
    }
  }

  /** copy_: tree becomes a copy of other, node by node new. A tree copied to
      itself is cleared. */
  method CopyTree(tree: HtmlTree, other: HtmlTree)
    requires tree.Valid() && other.Valid() && (other == tree || other.nodes !! tree.nodes)
    modifies tree`forest, tree`heap, tree`at, tree`nodes, tree.nodes
    ensures tree.Valid() && other.Valid() && AllNew(tree) && WF(tree.forest)
    ensures other != tree ==>
              && other.forest == old(other.forest) && other.nodes == old(other.nodes)
              && WF(other.forest) && SameTrees(other.forest, tree.forest)
    ensures other == tree ==> TOP in tree.forest.kids && tree.forest.kids[TOP] == [tree.head.id, tree.feet.id]
  {
    hide HtmlTree.Valid, WF;
    tree.Clear();
    InsertTops(tree, other);
    ReplaceTops(tree, other);
    tree.BoundIsFree();
  }
}
