/** libhtmlparser/tree.h: walking over the linked tree. */
module HtmlIterators {
  import opened EraseOrder
  import opened HtmlNodes
  import opened Forests
  import opened ForestErase
  import opened ForestOrder
  import opened HtmlLinks
  import opened HtmlTrees
  import opened Seqs

  /** The links of n, in terms of the forest. */
  lemma LinkIds(tree: HtmlTree, n: TreeNode)
    requires tree.Valid() && n in tree.nodes
    ensures var f := tree.forest;
            && WF(f) && n.id in f.par && n.id in f.kids && n.id != TOP && Domains(f)
            && PointsTo(tree.nodes, n.parent, f.par[n.id])
            && PointsTo(tree.nodes, n.nextSibling, NextSibling(f, n.id))
            && PointsTo(tree.nodes, n.firstChild, First(f.kids[n.id]))
            && PointsTo(tree.nodes, n.lastChild, Last(f.kids[n.id]))
            && PointsTo(tree.nodes, n.prevSibling, PrevSibling(f, n.id))
            && (n.firstChild == null <==> f.kids[n.id] == [])
  {
    hide HtmlTree.Valid, WF, Domains;
    tree.LinksOf(n);
    tree.BoundIsFree();
    if tree.forest.kids[n.id] != [] {
      KidPlace(tree.forest, n.id, 0);
    }
  }

  lemma PassedStep(f: Forest, n: Id)
    requires WF(f) && n in f.par
    ensures NextSibling(f, n) != TOP ==> Passed(f, n) == NextSibling(f, n)
    ensures NextSibling(f, n) == TOP ==>
      Passed(f, n) == if f.par[n] == TOP then TOP else (assert Placed(f, n); Passed(f, f.par[n]))
    ensures f.par[n] in f.rank && n in f.rank && f.rank[f.par[n]] < f.rank[n]
  {
    assert Placed(f, n);
    if f.idx[n] + 1 < |f.kids[f.par[n]]| {
      KidFacts(f, f.par[n], f.idx[n] + 1);
    }
  }

  lemma DeepestStep(f: Forest, n: Id)
    requires WF(f) && n in f.par
    ensures n in f.kids && n in f.rank && f.rank[n] < f.bound
    ensures f.kids[n] == [] ==> Deepest(f, n) == n
    ensures f.kids[n] != [] ==>
              var c := Last(f.kids[n]);
              c in f.par && f.rank[n] < f.rank[c] && Deepest(f, n) == Deepest(f, c)
  {
    assert Placed(f, n);
    if f.kids[n] != [] {
      KidFacts(f, n, |f.kids[n]| - 1);
    }
  }

  class PreOrderIterator {
    const tree: HtmlTree
    var node: TreeNode?
    var skipCurrentChildren: bool

    constructor (tree: HtmlTree, node: TreeNode?)
      ensures this.tree == tree && this.node == node && !skipCurrentChildren
    {
      this.tree := tree;
      this.node := node;
      skipCurrentChildren := false;
    }

    /** ++ */
    method Next()
      requires tree.Valid() && node != null && node in tree.nodes
      modifies this
      ensures !skipCurrentChildren && (node != null ==> node in tree.nodes)
      ensures WF(tree.forest) && old(node.id) in tree.forest.par
      ensures IdOf(node) == if old(skipCurrentChildren) then Passed(tree.forest, old(node.id))
                            else Successor(tree.forest, old(node.id))
    {
      hide HtmlTree.Valid, WF, Passed, NextSibling;
      LinkIds(tree, node);
      if !skipCurrentChildren && node.firstChild != null {
        node := node.firstChild;
      } else {
        skipCurrentChildren := false;
        ghost var goal := Passed(tree.forest, node.id);
        while node.nextSibling == null
          invariant node != null && node in tree.nodes && !skipCurrentChildren
          invariant node.id in tree.forest.par && node.id in tree.forest.rank && goal == Passed(tree.forest, node.id)
          decreases tree.forest.rank[node.id]
        {
          LinkIds(tree, node);
          PassedStep(tree.forest, node.id);
          node := node.parent;
          if node == null {
            return;
          }
          LinkIds(tree, node);
        }
        LinkIds(tree, node);
        PassedStep(tree.forest, node.id);
        node := node.nextSibling;
      }
    }

    /** -- */
    method Prev()
      requires tree.Valid() && node != null && node in tree.nodes
      modifies this`node
      ensures node != null ==> node in tree.nodes
      ensures WF(tree.forest) && old(node.id) in tree.forest.par
      ensures IdOf(node) == Predecessor(tree.forest, old(node.id))
    {
      hide HtmlTree.Valid, WF, Predecessor, Deepest, PrevSibling;
      LinkIds(tree, node);
      PredecessorStep(tree.forest, node.id);
      if node.prevSibling != null {
        ghost var goal := Predecessor(tree.forest, node.id);
        node := node.prevSibling;
        LinkIds(tree, node);
        DeepestStep(tree.forest, node.id);
        while node.lastChild != null
          invariant node != null && node in tree.nodes
          invariant node.id in tree.forest.kids && node.id in tree.forest.rank && goal == Deepest(tree.forest, node.id)
          decreases tree.forest.bound - tree.forest.rank[node.id]
        {
          LinkIds(tree, node);
          DeepestStep(tree.forest, node.id);
          node := node.lastChild;
          LinkIds(tree, node);
          DeepestStep(tree.forest, node.id);
        }
        LinkIds(tree, node);
        DeepestStep(tree.forest, node.id);
      } else {
        node := node.parent;
      }
    }
  }

  lemma PredecessorStep(f: Forest, n: Id)
    requires WF(f) && n in f.par
    ensures PrevSibling(f, n) == TOP ==> Predecessor(f, n) == f.par[n]
    ensures PrevSibling(f, n) != TOP ==>
              PrevSibling(f, n) in f.kids && Predecessor(f, n) == Deepest(f, PrevSibling(f, n))
  {
    assert Placed(f, n);
    if f.idx[n] > 0 {
      KidFacts(f, f.par[n], f.idx[n] - 1);
    }
  }

  /** next_at_same_depth: the next node in document order that is as deep as
      position, or none. */
  method NextAtSameDepth(tree: HtmlTree, position: TreeNode) returns (ret: TreeNode?)
    requires tree.Valid() && position in tree.nodes
    ensures ret != null ==> ret in tree.nodes
    ensures WF(tree.forest) && position.id in tree.forest.par
    ensures IdOf(ret) == Seek(tree.forest, Tail(tree.forest, position.id), Depth(tree.forest, position.id))
  {
    hide HtmlTree.Valid, WF, Seek, Depth, Tail, After, NextSibling;
    ghost var f := tree.forest;
    LinkIds(tree, position);
    ghost var d := Depth(f, position.id);
    ghost var goal := Seek(f, Tail(f, position.id), d);
    SeekPastBelow(f, position.id);
    if position.nextSibling != null {
      SideStep(f, position.id, d);
      return position.nextSibling;
    }
    ret := position;
    var relativeDepth: int := 0;
    while true
      invariant ret != null && ret in tree.nodes && ret.id in f.par && relativeDepth <= 0
      invariant Depth(f, ret.id) == d + relativeDepth && goal == Seek(f, After(f, ret.id), d)
      invariant relativeDepth < 0 || ret.nextSibling == null
      decreases |After(f, ret.id)|
    {
      ghost var room := |After(f, ret.id)|;
      // upper:
      while ret.nextSibling == null
        invariant ret != null && ret in tree.nodes && ret.id in f.par && ret.id in f.rank && relativeDepth <= 0
        invariant Depth(f, ret.id) == d + relativeDepth && goal == Seek(f, After(f, ret.id), d)
        invariant relativeDepth < 0 || ret.nextSibling == null
        invariant |After(f, ret.id)| == room
        decreases f.rank[ret.id]
      {
        LinkIds(tree, ret);
        UpStep(f, ret.id, d);
        ret := ret.parent;
        if ret == null {
          return;
        }
        relativeDepth := relativeDepth - 1;
        LinkIds(tree, ret);
      }
      // lower:
      LinkIds(tree, ret);
      SideStep(f, ret.id, d);
      ret := ret.nextSibling;
      while ret.firstChild == null && ret.nextSibling != null
        invariant ret != null && ret in tree.nodes && ret.id in f.par
        invariant Depth(f, ret.id) == d + relativeDepth && goal == Seek(f, Tail(f, ret.id), d)
        invariant |Tail(f, ret.id)| < room
        decreases |Tail(f, ret.id)|
      {
        LinkIds(tree, ret);
        DownStep(f, ret.id, d);
        SideStep(f, ret.id, d);
        ret := ret.nextSibling;
      }
      while relativeDepth < 0 && ret.firstChild != null
        invariant ret != null && ret in tree.nodes && ret.id in f.par && relativeDepth <= 0
        invariant Depth(f, ret.id) == d + relativeDepth
        invariant goal == if relativeDepth == 0 then ret.id else Seek(f, Tail(f, ret.id), d)
        invariant |Tail(f, ret.id)| < room
        decreases |Tail(f, ret.id)|
      {
        LinkIds(tree, ret);
        DownStep(f, ret.id, d);
        ret := ret.firstChild;
        relativeDepth := relativeDepth + 1;
      }
      if relativeDepth == 0 {
        return;
      }
      LinkIds(tree, ret);
      DownStep(f, ret.id, d);
    }
  }

  lemma UpStep(f: Forest, n: Id, d: nat)
    requires WF(f) && n in f.par && NextSibling(f, n) == TOP
    ensures f.par[n] == TOP ==> Seek(f, After(f, n), d) == TOP
    ensures f.par[n] != TOP ==>
      && f.par[n] in f.par && After(f, n) == After(f, f.par[n]) && Depth(f, n) == Depth(f, f.par[n]) + 1
      && f.rank[f.par[n]] < f.rank[n]
  {
    SeekUp(f, n);
  }

  lemma SideStep(f: Forest, n: Id, d: nat)
    requires WF(f) && n in f.par && NextSibling(f, n) != TOP
    ensures var m := NextSibling(f, n);
            && m in f.par && Depth(f, m) == Depth(f, n) && |Tail(f, m)| < |After(f, n)|
            && Seek(f, After(f, n), d) == if Depth(f, n) == d then m else Seek(f, Tail(f, m), d)
  {
    hide Seek, Tail, After, NextSibling;
    SeekSide(f, n);
    SeekOne(f, NextSibling(f, n), d);
  }

  lemma DownStep(f: Forest, n: Id, d: nat)
    requires WF(f) && n in f.par
    ensures n in f.kids
    ensures f.kids[n] == [] ==> Tail(f, n) == After(f, n)
    ensures f.kids[n] != [] ==>
      var c := f.kids[n][0];
      && c in f.par && Depth(f, c) == Depth(f, n) + 1 && |Tail(f, c)| < |Tail(f, n)|
      && Seek(f, Tail(f, n), d) == if Depth(f, c) == d then c else Seek(f, Tail(f, c), d)
  {
    hide Seek, Tail, After;
    SeekDown(f, n);
    if f.kids[n] != [] {
      SeekOne(f, f.kids[n][0], d);
    }
  }

  /** The document runs from head to feet. */
  lemma DocumentEnds(f: Forest, head: Id, feet: Id)
    requires WF(f) && TOP in f.kids && Bracketed(f, head, feet)
    ensures |Document(f)| >= 2 && Document(f)[0] == head && Document(f)[|Document(f)|-1] == feet
    ensures Document(f)[1] == f.kids[TOP][1]
  {
    var n := |f.kids[TOP]|;
    PreStep(f, TOP, 0);
    PreStep(f, TOP, 1);
    PreSplit(f, TOP, n - 1);
    PreStep(f, TOP, n - 1);
    PreEnd(f, TOP);
    PreEnd(f, head);
    PreEnd(f, feet);
    assert PreFrom(f, TOP, n - 1) == [feet];
    assert Document(f) == [head] + PreFrom(f, TOP, 1);
  }

  lemma {:induction false} OnceIsCount(s: seq<Id>, S: set<Id>)
    requires NoDup(s) && forall n :: n in s <==> n in S
    ensures |s| == |S|
    decreases |s|
  {
    if s == [] {
      assert S == {};
    } else {
      var t := s[1..];
      assert forall n :: n in t <==> n in S && n != s[0];
      OnceIsCount(t, S - {s[0]});
    }
  }

  /** Begin and end of the walk, and where ++ stands after k steps. */
  lemma WalkFacts(tree: HtmlTree)
    requires tree.Valid()
    ensures WF(tree.forest) && TOP in tree.forest.kids
    ensures var d := Document(tree.forest);
            && |d| >= 2 && |tree.forest.kids[TOP]| >= 2 && d[1] == tree.forest.kids[TOP][1] && d[|d|-1] == tree.feet.id
            && (forall k :: 0 <= k < |d| - 1 ==> d[k] != tree.feet.id)
            && |d| == |tree.forest.par|
  {
    hide WF, Realizes, Mirrors, Numbered;
    ConsistentParts(tree.heap, tree.forest, tree.head.id, tree.feet.id);
    DocumentEnds(tree.forest, tree.head.id, tree.feet.id);
    DocumentOnce(tree.forest);
    OnceIsCount(Document(tree.forest), tree.forest.par.Keys);
  }

  /** size: ++ from begin passes every node between the sentinels once and
      then stands at feet. */
  method Size(tree: HtmlTree) returns (i: nat)
    requires tree.Valid()
    ensures i + 2 == |tree.forest.par|
  {
    hide HtmlTree.Valid, WF, Document, Successor, Bracketed;
    i := 0;
    WalkFacts(tree);
    var first := tree.Begin();
    tree.BoundIsFree();
    var it := new PreOrderIterator(tree, first);
    while it.node != tree.feet
      invariant it.tree == tree && it.node != null && it.node in tree.nodes && !it.skipCurrentChildren
      invariant i + 1 < |Document(tree.forest)| && it.node.id == Document(tree.forest)[i+1]
      invariant fresh(it)
      decreases |Document(tree.forest)| - i
    {
      StepsInDocument(tree.forest, i + 1);
      assert i + 2 < |Document(tree.forest)| by {
        if i + 2 == |Document(tree.forest)| {
          tree.SameNode(it.node, tree.feet);
        }
      }
      StepsInDocument(tree.forest, i + 2);
      i := i + 1;
      it.Next();
    }
  }

  /** What is left when cur goes: the node behind its subtree is not in it. */
  lemma BehindStays(f: Forest, n: Id, head: Id, feet: Id)
    requires WF(f) && TOP in f.kids && Bracketed(f, head, feet) && n in f.par && feet !in Subtree(f, n)
    ensures WF(Erased(f, n)) && Document(Erased(f, n)) == Before(f, n) + After(f, n)
    ensures After(f, n) != [] && Passed(f, n) == After(f, n)[0]
    ensures Passed(f, n) in f.par && Passed(f, n) !in Subtree(f, n)
  {
    hide WF, Document, Before, After, Passed, Bracketed, PreFrom, Erased, Subtree;
    ErasedDocument(f, n);
    PassedIsNext(f, n);
    Apart(f, n);
    DocumentSplit(f, n);
    DocumentEnds(f, head, feet);
    var x := [n] + PreFrom(f, n, 0);
    assert Document(f) == Before(f, n) + x + After(f, n);
    EndsBehind(Before(f, n), x, After(f, n), feet);
  }

  lemma EndsBehind(b: seq<Id>, x: seq<Id>, a: seq<Id>, z: Id)
    requires x != [] && z !in x && (b + x + a)[|b + x + a|-1] == z
    ensures a != []
  {
    assert forall k :: |b| <= k < |b| + |x| ==> (b + x + a)[k] == x[k-|b|];
  }

  lemma BehindCur(tree: HtmlTree, cur: TreeNode)
    requires tree.Valid() && cur in tree.nodes && cur != tree.head && cur != tree.feet
    ensures var f, n := tree.forest, cur.id;
            && WF(f) && n in f.par && WF(Erased(f, n)) && Document(Erased(f, n)) == Before(f, n) + After(f, n)
            && After(f, n) != [] && Passed(f, n) == After(f, n)[0]
            && Passed(f, n) != TOP && Passed(f, n) !in Subtree(f, n)
  {
    hide HtmlTree.Valid, WF, Document, Before, After, Passed, Erased, Subtree;
    LinkIds(tree, cur);
    FeetAtTop(tree, cur);
    BehindStays(tree.forest, cur.id, tree.head.id, tree.feet.id);
    NotTop(tree.forest, Passed(tree.forest, cur.id));
  }

  lemma NotTop(f: Forest, n: Id)
    requires WF(f) && n in f.par
    ensures n != TOP
  {
    assert Placed(f, n);
  }

  lemma FeetAtTop(tree: HtmlTree, cur: TreeNode)
    requires tree.Valid() && cur in tree.nodes && cur != tree.feet && cur.id in tree.forest.par
    ensures WF(tree.forest) && TOP in tree.forest.kids && Bracketed(tree.forest, tree.head.id, tree.feet.id)
    ensures tree.feet.id !in Subtree(tree.forest, cur.id)
  {
    hide WF, Realizes, Mirrors, Numbered, Subtree;
    var f := tree.forest;
    ConsistentParts(tree.heap, f, tree.head.id, tree.feet.id);
    KidFacts(f, TOP, |f.kids[TOP]| - 1);
    SubtreeCloses(f, cur.id, tree.feet.id);
    if tree.feet.id == cur.id {
      tree.SameNode(tree.feet, cur);
    }
  }

  /** erase as it is called: the iterator that it gives back stands where the
      subtree was. */
  method EraseAt(tree: HtmlTree, cur: TreeNode) returns (ret: PreOrderIterator)
    requires tree.Valid() && cur in tree.nodes && cur != tree.head && cur != tree.feet
    modifies tree`forest, tree`heap, tree`at, tree`nodes, tree.nodes
    ensures tree.Valid() && old(WF(tree.forest) && cur.id in tree.forest.par)
    ensures tree.forest == old(Erased(tree.forest, cur.id))
    ensures tree.nodes == old(tree.Spared(tree.nodes, Subtree(tree.forest, cur.id)))
    ensures fresh(ret) && ret.tree == tree && !ret.skipCurrentChildren
    ensures ret.node != null && ret.node in tree.nodes && WF(tree.forest)
    ensures var d, k := Document(tree.forest), old(Position(tree.forest, cur.id));
            && k < |d| && d[k] == ret.node.id
            && d[..k] == old(Before(tree.forest, cur.id)) && d[k..] == old(After(tree.forest, cur.id))
  {
    hide HtmlTree.Valid, WF, Erased, Passed, Before, After, Document, Subtree;
    tree.BoundIsFree();
    BehindCur(tree, cur);
    ret := new PreOrderIterator(tree, cur);
    ret.skipCurrentChildren := true;
    ret.Next();
    tree.Erase(cur);
  }
}
