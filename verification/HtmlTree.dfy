/** libhtmlparser/tree.h: the tree as linked nodes in the heap. */
module HtmlTrees {
  import opened HtmlNodes
  import opened Forests
  import opened ForestErase
  import opened HtmlLinks
  import opened EraseLinks
  import opened ForestCopy
  import opened ReplaceLinks
  import opened ForestMove
  import opened ReparentLinks
  import opened DomModel
  import opened Seqs

  class TreeNode {
    ghost const id: Id
    var data: HtmlNode
    var parent: TreeNode?
    var firstChild: TreeNode?
    var lastChild: TreeNode?
    var prevSibling: TreeNode?
    var nextSibling: TreeNode?

    constructor (data: HtmlNode, ghost id: Id)
      ensures this.data == data && this.id == id
      ensures parent == firstChild == lastChild == prevSibling == nextSibling == null
    {
      this.data := data;
      this.id := id;
      parent, firstChild, lastChild, prevSibling, nextSibling := null, null, null, null, null;
    }
  }

  // ----- the class --------------------------------------------------------

  ghost function IdOf(n: TreeNode?): Id {
    if n == null then TOP else n.id
  }

  /** The pointer x is what i says. */
  ghost predicate PointsTo(nodes: set<TreeNode>, x: TreeNode?, i: Id) {
    IdOf(x) == i && (x != null ==> x in nodes && i != TOP)
  }

  ghost predicate Holds(nodes: set<TreeNode>, n: TreeNode, w: Fields)
    reads n
  {
    && n.data == w.data
    && PointsTo(nodes, n.parent, w.parent)
    && PointsTo(nodes, n.firstChild, w.first)
    && PointsTo(nodes, n.lastChild, w.last)
    && PointsTo(nodes, n.prevSibling, w.prev)
    && PointsTo(nodes, n.nextSibling, w.next)
  }

  /** n is numbered by at and holds what h records. */
  ghost predicate NodeOk(nodes: set<TreeNode>, at: map<Id, TreeNode>, h: Heap, n: TreeNode)
    reads n
  {
    && n.id != TOP && n.id in at && at[n.id] == n
    && n.id in h && Holds(nodes, n, h[n.id])
  }

  ghost predicate Mirrors(nodes: set<TreeNode>, at: map<Id, TreeNode>, h: Heap)
    reads nodes
  {
    forall n {:trigger NodeOk(nodes, at, h, n)} | n in nodes :: NodeOk(nodes, at, h, n)
  }

  /** Every number that h knows is that of a node. */
  ghost predicate Numbered(nodes: set<TreeNode>, at: map<Id, TreeNode>, h: Heap) {
    forall i {:trigger at[i]} {:trigger i in h} | i in h :: i in at && at[i] in nodes && at[i].id == i
  }

  class HtmlTree {
    // Sentinels: iterators that point to them are invalid.
    const head: TreeNode
    const feet: TreeNode
    // The nodes, which of them has which number, and what they hold.
    ghost var nodes: set<TreeNode>
    ghost var at: map<Id, TreeNode>
    ghost var heap: Heap
    ghost var forest: Forest

    ghost predicate Valid()
      reads this, nodes
    {
      && Mirrors(nodes, at, heap)
      && Numbered(nodes, at, heap)
      && head in nodes && feet in nodes
      && Consistent(heap, forest, head.id, feet.id)
    }

    /** A new child can be put below position. */
    ghost predicate AppendsTo(position: TreeNode)
      reads this
    {
      Domains(forest) && position.id in forest.kids && forest.bound !in forest.par && forest.bound != TOP
    }

    /** position has a place among siblings, and a free number is at hand. */
    ghost predicate StandsIn(position: TreeNode)
      reads this
    {
      && Domains(forest) && position.id in forest.par && forest.par[position.id] in forest.kids
      && forest.idx[position.id] < |forest.kids[forest.par[position.id]]|
      && forest.bound !in forest.par && forest.bound != TOP
    }

    // ----- single assignments ---------------------------------------------

    method AssignParent(n: TreeNode, v: TreeNode?)
      requires Mirrors(nodes, at, heap) && n in nodes && (v != null ==> v in nodes)
      modifies this`heap, n`parent
      ensures n.id in old(heap) && heap == SetParent(old(heap), n.id, IdOf(v))
      ensures Mirrors(nodes, at, heap)
    {
      assert NodeOk(nodes, at, heap, n) && (v != null ==> NodeOk(nodes, at, heap, v));
      n.parent := v;
      heap := SetParent(heap, n.id, IdOf(v));
      forall m | m in nodes
        ensures NodeOk(nodes, at, heap, m)
      {
        assert old(NodeOk(nodes, at, heap, m));
      }
    }

    method AssignFirst(n: TreeNode, v: TreeNode?)
      requires Mirrors(nodes, at, heap) && n in nodes && (v != null ==> v in nodes)
      modifies this`heap, n`firstChild
      ensures n.id in old(heap) && heap == SetFirst(old(heap), n.id, IdOf(v))
      ensures Mirrors(nodes, at, heap)
    {
      assert NodeOk(nodes, at, heap, n) && (v != null ==> NodeOk(nodes, at, heap, v));
      n.firstChild := v;
      heap := SetFirst(heap, n.id, IdOf(v));
      forall m | m in nodes
        ensures NodeOk(nodes, at, heap, m)
      {
        assert old(NodeOk(nodes, at, heap, m));
      }
    }

    method AssignLast(n: TreeNode, v: TreeNode?)
      requires Mirrors(nodes, at, heap) && n in nodes && (v != null ==> v in nodes)
      modifies this`heap, n`lastChild
      ensures n.id in old(heap) && heap == SetLast(old(heap), n.id, IdOf(v))
      ensures Mirrors(nodes, at, heap)
    {
      assert NodeOk(nodes, at, heap, n) && (v != null ==> NodeOk(nodes, at, heap, v));
      n.lastChild := v;
      heap := SetLast(heap, n.id, IdOf(v));
      forall m | m in nodes
        ensures NodeOk(nodes, at, heap, m)
      {
        assert old(NodeOk(nodes, at, heap, m));
      }
    }

    method AssignPrev(n: TreeNode, v: TreeNode?)
      requires Mirrors(nodes, at, heap) && n in nodes && (v != null ==> v in nodes)
      modifies this`heap, n`prevSibling
      ensures n.id in old(heap) && heap == SetPrev(old(heap), n.id, IdOf(v))
      ensures Mirrors(nodes, at, heap)
    {
      assert NodeOk(nodes, at, heap, n) && (v != null ==> NodeOk(nodes, at, heap, v));
      n.prevSibling := v;
      heap := SetPrev(heap, n.id, IdOf(v));
      forall m | m in nodes
        ensures NodeOk(nodes, at, heap, m)
      {
        assert old(NodeOk(nodes, at, heap, m));
      }
    }

    method AssignNext(n: TreeNode, v: TreeNode?)
      requires Mirrors(nodes, at, heap) && n in nodes && (v != null ==> v in nodes)
      modifies this`heap, n`nextSibling
      ensures n.id in old(heap) && heap == SetNext(old(heap), n.id, IdOf(v))
      ensures Mirrors(nodes, at, heap)
    {
      assert NodeOk(nodes, at, heap, n) && (v != null ==> NodeOk(nodes, at, heap, v));
      n.nextSibling := v;
      heap := SetNext(heap, n.id, IdOf(v));
      forall m | m in nodes
        ensures NodeOk(nodes, at, heap, m)
      {
        assert old(NodeOk(nodes, at, heap, m));
      }
    }

    method Allocate(x: HtmlNode, ghost n: Id) returns (tmp: TreeNode)
      requires Mirrors(nodes, at, heap) && n !in heap && n != TOP
      modifies this`heap, this`at, this`nodes
      ensures fresh(tmp) && tmp.id == n && at == old(at)[n := tmp] && nodes == old(nodes) + {tmp}
      ensures Mirrors(nodes, at, heap) && heap == NewNode(old(heap), n, x)
      ensures old(Numbered(nodes, at, heap)) ==> Numbered(nodes, at, heap)
    {
      tmp := new TreeNode(x, n);
      at := at[n := tmp];
      nodes := nodes + {tmp};
      heap := NewNode(heap, n, x);
      forall m | m in nodes
        ensures NodeOk(nodes, at, heap, m)
      {
        if m != tmp {
          assert old(NodeOk(nodes, at, heap, m));
        }
      }
    }

    // ----- construction and insertion -------------------------------------

    constructor ()
      ensures Valid() && fresh(nodes)
      ensures forest == EMPTY_FOREST && head.id == HEAD && feet.id == FEET
    {
      hide Consistent;
      var h := new TreeNode(ROOT, HEAD);
      var t := new TreeNode(ROOT, FEET);
      head, feet := h, t;
      h.nextSibling := t;
      t.prevSibling := h;
      nodes, at, heap, forest := {h, t}, map[HEAD := h, FEET := t], EMPTY_HEAP, EMPTY_FOREST;
      new;
      EmptyTree();
      assert NodeOk(nodes, at, heap, h) && NodeOk(nodes, at, heap, t);
    }

    method LinkAsLast(position: TreeNode, tmp: TreeNode)
      requires Mirrors(nodes, at, heap) && position in nodes && tmp in nodes && position != tmp
      requires position.id in heap && tmp.id in heap
      requires heap[position.id].last != TOP ==> heap[position.id].last in heap
      requires heap[position.id].last != tmp.id
      modifies this`heap, position, position.lastChild, tmp
      ensures Mirrors(nodes, at, heap)
      ensures heap == LinkLast(old(heap), position.id, tmp.id) && heap.Keys == old(heap.Keys)
    {
      assert NodeOk(nodes, at, heap, position) && NodeOk(nodes, at, heap, tmp);
      AssignParent(tmp, position);
      if position.lastChild != null {
        AssignNext(position.lastChild, tmp);
      } else {
        AssignFirst(position, tmp);
      }
      AssignPrev(tmp, position.lastChild);
      AssignLast(position, tmp);
      AssignNext(tmp, null);
    }

    /** append_child. */
    method AppendChild(position: TreeNode, x: HtmlNode) returns (tmp: TreeNode)
      requires Valid() && position in nodes && position != head && position != feet
      modifies this`forest, this`heap, this`at, this`nodes, position, position.lastChild
      ensures Valid() && fresh(tmp) && tmp.id == old(forest.bound) && nodes == old(nodes) + {tmp}
      ensures old(AppendsTo(position)) && forest == Appended(old(forest), position.id, tmp.id, x)
    {
      hide Consistent, Domains, LinkLast, Appended;
      assert NodeOk(nodes, at, heap, position) && NodeOk(nodes, at, heap, head) && NodeOk(nodes, at, heap, feet);
      LinkLastConsistent(heap, forest, position.id, x, head.id, feet.id);
      ghost var g := Appended(forest, position.id, forest.bound, x);
      tmp := Allocate(x, forest.bound);
      LinkAsLast(position, tmp);
      forest := g;
    }

    method LinkInFront(position: TreeNode, tmp: TreeNode)
      requires Mirrors(nodes, at, heap) && position in nodes && tmp in nodes && position != tmp
      requires position.id in heap && tmp.id in heap && TOP !in heap
      requires var w := heap[position.id];
               if w.prev == TOP then w.parent in heap && w.parent != tmp.id else w.prev in heap && w.prev != tmp.id
      modifies this`heap, nodes
      ensures Mirrors(nodes, at, heap)
      ensures heap == LinkBefore(old(heap), position.id, tmp.id) && heap.Keys == old(heap.Keys)
    {
      hide LinkBefore;
      ghost var h, w := heap, heap[position.id];
      assert NodeOk(nodes, at, heap, position);
      AssignParent(tmp, position.parent);
      AssignNext(tmp, position);
      AssignPrev(tmp, position.prevSibling);
      AssignPrev(position, tmp);
      assert NodeOk(nodes, at, heap, tmp);
      if tmp.prevSibling == null {
        AssignFirst(tmp.parent, tmp);
      } else {
        AssignNext(tmp.prevSibling, tmp);
      }
      LinkBeforeIs(h, position.id, tmp.id);
    }

    lemma FeetApart()
      requires Valid()
      ensures feet in nodes && feet != head
    {
      hide Mirrors, Numbered, Realizes;
      var tops := forest.kids[TOP];
      KidFacts(forest, TOP, 0);
      KidFacts(forest, TOP, |tops| - 1);
    }

    /** insert: a new node in front of place, or in front of feet if place is
        null. */
    method Insert(place: TreeNode?, x: HtmlNode) returns (tmp: TreeNode)
      requires Valid() && (place != null ==> place in nodes && place != head)
      modifies this`forest, this`heap, this`at, this`nodes, nodes
      ensures Valid() && fresh(tmp) && tmp.id == old(forest.bound) && nodes == old(nodes) + {tmp}
      ensures old(feet in nodes && feet != head && StandsIn(if place == null then feet else place))
      ensures forest == old(var p := (if place == null then feet else place).id;
                            Inserted(forest, forest.par[p], forest.idx[p], forest.bound, x))
    {
      hide Consistent, Domains, LinkBefore, Inserted;
      FeetApart();
      var position: TreeNode := if place == null then feet else place;
      assert NodeOk(nodes, at, heap, position) && NodeOk(nodes, at, heap, head) && NodeOk(nodes, at, heap, feet);
      LinkBeforeConsistent(heap, forest, position.id, x, head.id, feet.id);
      ghost var g := Inserted(forest, forest.par[position.id], forest.idx[position.id], forest.bound, x);
      tmp := Allocate(x, forest.bound);
      LinkInFront(position, tmp);
      forest := g;
    }

    /** flatten: the children of position become its next siblings. */
    method Flatten(position: TreeNode)
      requires Valid() && position in nodes
      modifies this`forest, this`heap, nodes
      ensures Valid()
      ensures old(WF(forest) && position.id in forest.par) && forest == old(Flattened(forest, position.id))
    {
      hide Consistent, WF, Flattened, LinkFlat;
      assert NodeOk(nodes, at, heap, position);
      ghost var h, n := heap, position.id;
      LinkFlatConsistent(h, forest, n, head.id, feet.id);
      ghost var ks, g := forest.kids[n], Flattened(forest, n);
      FlattenLinks(position, ks);
      forest := g;
    }

    method FlattenLinks(position: TreeNode, ghost ks: seq<Id>)
      requires Mirrors(nodes, at, heap) && position in nodes && position.id in heap && TOP !in heap
      requires heap[position.id].first == FirstOf(ks) && forall j :: 0 <= j < |ks| ==> ks[j] in heap
      requires ks != [] ==> CanFlatten(heap, ks, position.id)
      requires forall j :: 0 <= j < |ks| ==> heap[ks[j]].next == NextAt(ks, j)
      modifies this`heap, nodes
      ensures Mirrors(nodes, at, heap) && heap.Keys == old(heap.Keys)
      ensures heap == if ks == [] then old(heap) else LinkFlat(old(heap), ks, position.id)
    {
      assert NodeOk(nodes, at, heap, position);
      if position.firstChild == null {
        return;
      }
      ghost var h := heap;
      AdoptChildren(position, ks);
      AdoptAt(h, ks, h[position.id].parent, |ks|, position.id);
      LinkBehind(position, h, ks);
    }

    /** The loop of flatten. */
    method AdoptChildren(position: TreeNode, ghost ks: seq<Id>)
      requires Mirrors(nodes, at, heap) && position in nodes && TOP !in heap
      requires position.id in heap && heap[position.id].first == FirstOf(ks)
      requires forall j :: 0 <= j < |ks| ==> ks[j] in heap && ks[j] != position.id && heap[ks[j]].next == NextAt(ks, j)
      modifies this`heap, nodes
      ensures Mirrors(nodes, at, heap)
      ensures heap == Adopt(old(heap), ks, old(heap)[position.id].parent, |ks|)
    {
      hide Adopt;
      assert NodeOk(nodes, at, heap, position);
      ghost var h, p, i := heap, heap[position.id].parent, 0;
      AdoptNone(h, ks, p);
      var tmp := position.firstChild;
      while tmp != null
        invariant Mirrors(nodes, at, heap)
        invariant 0 <= i <= |ks| && heap == Adopt(h, ks, p, i)
        invariant IdOf(tmp) == (if i < |ks| then ks[i] else TOP) && (tmp != null ==> tmp in nodes && i < |ks|)
        decreases |ks| - i
      {
        tmp := AdoptChild(position, tmp, h, ks, i);
        i := i + 1;
      }
    }

    /** The body of the loop: tmp is the i-th child, and its next sibling follows. */
    method AdoptChild(position: TreeNode, tmp: TreeNode, ghost h: Heap, ghost ks: seq<Id>, ghost i: nat)
      returns (sibling: TreeNode?)
      requires Mirrors(nodes, at, heap) && position in nodes && tmp in nodes && TOP !in h && position.id in h
      requires forall j :: 0 <= j < |ks| ==> ks[j] in h && ks[j] != position.id && h[ks[j]].next == NextAt(ks, j)
      requires i < |ks| && tmp.id == ks[i] && heap == Adopt(h, ks, h[position.id].parent, i)
      modifies this`heap, tmp`parent
      ensures Mirrors(nodes, at, heap) && heap == Adopt(h, ks, h[position.id].parent, i + 1)
      ensures IdOf(sibling) == (if i + 1 < |ks| then ks[i+1] else TOP)
      ensures sibling != null ==> sibling in nodes && i + 1 < |ks|
    {
      hide Adopt, Mirrors;
      ghost var p := h[position.id].parent;
      AdoptAt(h, ks, p, i, position.id);
      AdoptAt(h, ks, p, i, ks[i]);
      AdoptOne(h, ks, p, i);
      Mirrored(position);
      Mirrored(tmp);
      AssignParent(tmp, position.parent);
      Mirrored(tmp);
      sibling := tmp.nextSibling;
      if sibling != null {
        Mirrored(sibling);
      }
    }

    lemma Mirrored(n: TreeNode)
      requires Mirrors(nodes, at, heap) && n in nodes
      ensures NodeOk(nodes, at, heap, n)
    {
      assert NodeOk(nodes, at, heap, n);
    }

    /** The part of flatten behind its loop. */
    method LinkBehind(position: TreeNode, ghost h: Heap, ghost ks: seq<Id>)
      requires position in nodes && CanFlatten(h, ks, position.id) && TOP !in h
      requires Mirrors(nodes, at, heap) && heap == Adopt(h, ks, h[position.id].parent, |ks|)
      requires heap[position.id] == h[position.id]
      modifies this`heap, nodes
      ensures Mirrors(nodes, at, heap) && heap == LinkFlat(h, ks, position.id)
    {
      hide CanFlatten, Adopt;
      NoTop(h, ks, position.id);
      assert NodeOk(nodes, at, heap, position);
      if position.nextSibling != null {
        AssignNext(position.lastChild, position.nextSibling);
        assert NodeOk(nodes, at, heap, position);
        AssignPrev(position.nextSibling, position.lastChild);
      } else {
        AssignLast(position.parent, position.lastChild);
      }
      assert NodeOk(nodes, at, heap, position);
      AssignNext(position, position.firstChild);
      assert NodeOk(nodes, at, heap, position);
      AssignPrev(position.nextSibling, position);
      AssignFirst(position, null);
      AssignLast(position, null);
    }

    // ----- erasing --------------------------------------------------------

    /** Every node of S is still allocated. */
    static ghost predicate Alive(nodes: set<TreeNode>, live: set<TreeNode>, S: set<Id>) {
      && live <= nodes
      && forall n {:trigger n in live} :: n in nodes && n.id in S ==> n in live
    }

    /** What is live without the nodes of S. */
    static ghost function Spared(live: set<TreeNode>, S: set<Id>): set<TreeNode> {
      set n | n in live && n.id !in S
    }

    static lemma SparedNone(live: set<TreeNode>)
      ensures Spared(live, {}) == live
    {
    }

    /** c, the i-th child of n, and what is below it can be freed next. */
    lemma SparedNext(live: set<TreeNode>, n: Id, i: nat, c: TreeNode)
      requires Mirrors(nodes, at, heap) && c in nodes && WF(forest) && Alive(nodes, live, Subtree(forest, n))
      requires n in forest.kids && i < |forest.kids[n]| && c.id == forest.kids[n][i]
      ensures var left := Spared(live, BelowPart(forest, n, i));
              && c in left && Alive(nodes, left, Subtree(forest, c.id))
              && c in Spared(left, Below(forest, c.id))
              && Spared(left, Below(forest, c.id)) - {c} == Spared(live, BelowPart(forest, n, i + 1))
    {
      hide BelowPart, Below, WF, Holds, Subtree;
      KidSubtree(forest, n, i);
      forall m | m in nodes && m.id == c.id
        ensures m == c
      {
        assert NodeOk(nodes, at, heap, m) && NodeOk(nodes, at, heap, c);
      }
    }

    /** erase_children: everything below it is freed, each node once. h0 and
        forest are the tree before. */
    method EraseChildren(it: TreeNode, ghost h0: Heap, ghost live: set<TreeNode>) returns (ghost left: set<TreeNode>)
      requires Mirrors(nodes, at, heap) && it in nodes && it.id in h0 && it.id in forest.rank
      requires WF(forest) && Realizes(h0, forest) && heap.Keys == h0.Keys && TOP !in h0
      requires Untouched(heap, h0, Subtree(forest, it.id)) && Alive(nodes, live, Subtree(forest, it.id))
      modifies this`heap, nodes
      ensures Mirrors(nodes, at, heap) && heap == Stripped(old(heap), Subtree(forest, it.id))
      ensures left == Spared(live, Below(forest, it.id))
      decreases forest.bound - forest.rank[it.id]
    {
      hide WF, Realizes, Below, BelowPart, Subtree, Stripped, Spared, Untouched, Alive, Domains;
      RootUntouched(heap, h0, forest, it.id);
      ghost var h, n, ks, i := heap, it.id, forest.kids[it.id], 0;
      BelowNone(forest, n);
      StrippedNone(h);
      SparedNone(live);
      assert NodeOk(nodes, at, heap, it);
      var cur := it.firstChild;
      left := live;
      while cur != null
        invariant Mirrors(nodes, at, heap) && i <= |ks|
        invariant IdOf(cur) == (if i < |ks| then ks[i] else TOP) && (cur != null ==> cur in nodes && i < |ks|)
        invariant heap == Stripped(h, BelowPart(forest, n, i))
        invariant left == Spared(live, BelowPart(forest, n, i))
        decreases |ks| - i
      {
        KidUntouched(h, h0, forest, n, i);
        KidRank(forest, n, i);
        StrippedNext(h, forest, n, i);
        var prev := cur;
        SparedNext(live, n, i, prev);
        assert prev in left && NodeOk(nodes, at, heap, prev);
        cur := cur.nextSibling;
        left := EraseChildren(prev, h0, left);
        left := Free(prev, left);
        i := i + 1;
      }
      BelowAll(forest, n);
      StrippedRoot(h, forest, n);
      AssignFirst(it, null);
      AssignLast(it, null);
    }

    /** A node is freed: it must still be allocated. */
    ghost method Free(n: TreeNode, live: set<TreeNode>) returns (left: set<TreeNode>)
      requires n in live
      ensures left == live - {n}
    {
      left := live - {n};
    }

    /** The part of erase that takes cur out of its list. */
    method TakeOut(cur: TreeNode)
      requires Mirrors(nodes, at, heap) && cur in nodes && CanUnlink(heap, cur.id) && TOP !in heap
      modifies this`heap, nodes
      ensures Mirrors(nodes, at, heap) && heap == Unlink(old(heap), cur.id)
    {
      assert NodeOk(nodes, at, heap, cur);
      if cur.prevSibling == null {
        AssignFirst(cur.parent, cur.nextSibling);
      } else {
        AssignNext(cur.prevSibling, cur.nextSibling);
      }
      assert NodeOk(nodes, at, heap, cur);
      if cur.nextSibling == null {
        AssignLast(cur.parent, cur.prevSibling);
      } else {
        AssignPrev(cur.nextSibling, cur.prevSibling);
      }
    }

    /** What is left mirrors what is left of the links, because no link leads
        to a freed node. */
    lemma LeftMirrors(S: set<Id>, h: Heap, g: Forest)
      requires Mirrors(nodes, at, heap) && Numbered(nodes, at, heap)
      requires h == heap - S && WF(g) && Realizes(h, g)
      ensures Mirrors(Spared(nodes, S), at - S, h) && Numbered(Spared(nodes, S), at - S, h)
    {
      hide WF, Realizes;
      forall n | n in Spared(nodes, S)
        ensures NodeOk(Spared(nodes, S), at - S, h, n)
      {
        assert NodeOk(nodes, at, heap, n);
        NeighboursKnown(h, g, n.id);
      }
    }

    /** erase: the subtree at cur is taken out and freed; nothing else is. */
    method Erase(cur: TreeNode)
      requires Valid() && cur in nodes && cur != head && cur != feet
      modifies this`forest, this`heap, this`at, this`nodes, nodes
      ensures Valid()
      ensures old(WF(forest) && cur.id in forest.par) && forest == old(Erased(forest, cur.id))
      ensures nodes == old(Spared(nodes, Subtree(forest, cur.id)))
    {
      hide WF, Realizes, Bracketed, Domains, Erased, Below, Unlink, CanUnlink, Subtree, Stripped, Untouched;
      ghost var h, f, n, S := heap, forest, cur.id, Subtree(forest, cur.id);
      OtherNode(cur, head);
      OtherNode(cur, feet);
      EraseReady(h, f, n, head.id, feet.id);
      StrippedUnlink(h, n, S);
      SparedRoot(cur);
      ghost var live := EraseChildren(cur, h, nodes);
      TakeOut(cur);
      live := Free(cur, live);
      EraseConsistent(h, heap - S, f, n, head.id, feet.id);
      ConsistentParts(heap - S, Erased(f, n), head.id, feet.id);
      LeftMirrors(S, heap - S, Erased(f, n));
      nodes, at, heap, forest := live, at - S, heap - S, Erased(f, n);
    }

    /** The part of replace that puts tmp in the place of cur. */
    method PutInPlace(cur: TreeNode, tmp: TreeNode)
      requires Mirrors(nodes, at, heap) && cur in nodes && tmp in nodes && TOP !in heap
      requires CanUnlink(heap, cur.id) && tmp.id in heap && tmp != cur
      requires heap[cur.id].prev != cur.id
      modifies this`heap, nodes
      ensures Mirrors(nodes, at, heap) && cur.id in old(heap) && tmp.id in old(heap)
      ensures heap == Relink(old(heap), cur.id, tmp.id)
    {
      hide Mirrors;
      Mirrored(cur);
      Mirrored(tmp);
      if cur.prevSibling == null {
        AssignFirst(cur.parent, tmp);
      } else {
        AssignNext(cur.prevSibling, tmp);
      }
      Mirrored(cur);
      AssignPrev(tmp, cur.prevSibling);
      Mirrored(cur);
      if cur.nextSibling == null {
        AssignLast(cur.parent, tmp);
      } else {
        AssignPrev(cur.nextSibling, tmp);
      }
      Mirrored(cur);
      AssignNext(tmp, cur.nextSibling);
      Mirrored(cur);
      AssignParent(tmp, cur.parent);
    }

    /** The assignments of the first part of replace. */
    method FreeAndPut(cur: TreeNode, x: HtmlNode, ghost S: set<Id>) returns (tmp: TreeNode, ghost live: set<TreeNode>)
      requires Mirrors(nodes, at, heap) && Numbered(nodes, at, heap) && cur in nodes && TOP !in heap
      requires WF(forest) && Realizes(heap, forest) && cur.id in forest.rank && S == Subtree(forest, cur.id)
      requires Untouched(heap, heap, S) && cur.id !in Below(forest, cur.id) && forest.bound !in heap
               && forest.bound != TOP && cur.id != forest.bound
      requires var h1 := NewNode(Stripped(heap, S), forest.bound, x); CanUnlink(h1, cur.id) && h1[cur.id].prev != cur.id
      modifies this`heap, this`at, this`nodes, nodes
      ensures fresh(tmp) && tmp.id == forest.bound && Mirrors(nodes, at, heap) && Numbered(nodes, at, heap)
      ensures nodes == old(nodes) + {tmp} && at == old(at)[forest.bound := tmp]
      ensures live == old(Spared(nodes, Below(forest, cur.id)) - {cur}) + {tmp}
      ensures var h1 := NewNode(Stripped(old(heap), S), forest.bound, x);
              CanUnlink(h1, cur.id) && forest.bound in h1 && heap == Relink(h1, cur.id, forest.bound)
    {
      hide WF, Realizes, Below, Relink, CanUnlink, Subtree, Stripped, Mirrors;
      SparedAll(S);
      Mirrored(cur);
      live := EraseChildren(cur, heap, nodes);
      tmp := Allocate(x, forest.bound);
      live := live + {tmp};
      PutInPlace(cur, tmp);
      live := Free(cur, live);
    }

    /** The first part of replace: the subtree at cur is freed, and a leaf
        with the datum x stands in its place. */
    method ReplaceByLeaf(cur: TreeNode, x: HtmlNode) returns (tmp: TreeNode)
      requires Valid() && cur in nodes && cur != head && cur != feet
      modifies this`forest, this`heap, this`at, this`nodes, nodes
      ensures Valid() && fresh(tmp) && tmp.id == old(forest.bound)
      ensures old(WF(forest) && cur.id in forest.par && forest.bound !in forest.par && forest.bound != TOP)
      ensures forest == old(Replaced(forest, cur.id, forest.bound, x))
      ensures nodes == old(Spared(nodes, Subtree(forest, cur.id))) + {tmp}
    {
      hide Valid, WF, Realizes, Domains, Replaced, Below, Relink, CanUnlink, Subtree, Stripped, Untouched, Mirrors,
           Numbered, NewNode, Spared;
      LeafReady(cur, x);
      ghost var h, S := heap, Subtree(forest, cur.id);
      ghost var live;
      tmp, live := FreeAndPut(cur, x, S);
      SettleLeaf(cur.id, tmp, x, live, h, old(nodes));
    }

    /** What FreeAndPut needs, and what comes of it. */
    lemma LeafReady(cur: TreeNode, x: HtmlNode)
      requires Valid() && cur in nodes && cur != head && cur != feet
      ensures Mirrors(nodes, at, heap) && Numbered(nodes, at, heap) && TOP !in heap
      ensures WF(forest) && Realizes(heap, forest) && cur.id in forest.rank && cur.id in forest.par
      ensures forest.bound !in heap && forest.bound !in forest.par && forest.bound != TOP && cur.id != forest.bound
      ensures head in nodes && feet in nodes && cur.id != head.id && cur.id != feet.id && cur.id in heap
      ensures Spared(nodes, Below(forest, cur.id)) - {cur} == Spared(nodes, Subtree(forest, cur.id))
      ensures var S := Subtree(forest, cur.id);
              && Untouched(heap, heap, S) && cur.id !in Below(forest, cur.id)
              && head.id !in S && feet.id !in S && S <= heap.Keys
      ensures var h1 := NewNode(Stripped(heap, Subtree(forest, cur.id)), forest.bound, x);
              CanUnlink(h1, cur.id) && h1[cur.id].prev != cur.id
      ensures Consistent(heap, forest, head.id, feet.id) && CanUnlink(heap, cur.id)
    {
      hide WF, Realizes, Bracketed, Domains, Below, Relink, CanUnlink, Subtree, Stripped, Untouched, Mirrors,
           Numbered, NewNode, Relinked;
      OtherNode(cur, head);
      OtherNode(cur, feet);
      EraseReady(heap, forest, cur.id, head.id, feet.id);
      NodeKnown(heap, forest, head.id, feet.id, cur.id);
      FreeBound(heap, forest, head.id, feet.id);
      SparedRoot(cur);
      RelinkReady(heap, forest, cur.id, forest.bound, x, Subtree(forest, cur.id));
    }

    static lemma LeafConsistent(h: Heap, f: Forest, n: Id, t: Id, x: HtmlNode, S: set<Id>, head: Id, feet: Id)
      requires Consistent(h, f, head, feet) && n in h && n != head && n != feet && CanUnlink(h, n)
      requires WF(f) && n in f.par && t == f.bound && t !in f.par && t !in h && t != TOP && TOP !in h
      requires S == Subtree(f, n) && S <= h.Keys
      ensures var h1 := NewNode(Stripped(h, S), t, x);
              CanUnlink(h1, n) && t in h1 && Consistent(Relink(h1, n, t) - S, Replaced(f, n, t, x), head, feet)
    {
      hide WF, Realizes, Bracketed, Domains, Replaced, Below, Relink, CanUnlink, Subtree, Stripped, NewNode, Relinked;
      NodeKnown(h, f, head, feet, n);
      RelinkReady(h, f, n, t, x, S);
      ReplaceConsistent(h, Relink(NewNode(Stripped(h, S), t, x), n, t) - S, f, n, t, x, head, feet);
    }

    /** The end of ReplaceByLeaf, when no pointer is written any more: the
        freed nodes are forgotten. */
    ghost method SettleLeaf(n: Id, tmp: TreeNode, x: HtmlNode, live: set<TreeNode>, h: Heap, was: set<TreeNode>)
      requires Consistent(h, forest, head.id, feet.id) && n in h && n != head.id && n != feet.id
      requires CanUnlink(h, n) && WF(forest) && n in forest.par && tmp.id == forest.bound
      requires forest.bound !in forest.par && forest.bound !in h && forest.bound != TOP && TOP !in h
      requires var S := Subtree(forest, n);
        && head.id !in S && feet.id !in S && S <= h.Keys && head in was && feet in was
        && live == Spared(was, S) + {tmp} && nodes == was + {tmp}
      requires var h1 := NewNode(Stripped(h, Subtree(forest, n)), forest.bound, x);
        CanUnlink(h1, n) && forest.bound in h1 && heap == Relink(h1, n, forest.bound)
      requires Mirrors(nodes, at, heap) && Numbered(nodes, at, heap)
      modifies this`forest, this`heap, this`at, this`nodes
      ensures Valid() && nodes == live && forest == old(Replaced(forest, n, forest.bound, x))
    {
      hide WF, Realizes, Bracketed, Domains, Replaced, Below, Relink, CanUnlink, Subtree, Stripped, Mirrors,
           Numbered, NewNode, Relinked;
      var f, S, t := forest, Subtree(forest, n), forest.bound;
      var g := heap - S;
      LeafConsistent(h, f, n, t, x, S, head.id, feet.id);
      ConsistentParts(g, Replaced(f, n, t, x), head.id, feet.id);
      LeftMirrors(S, g, Replaced(f, n, t, x));
      SparedNew(tmp, was, S);
      nodes, at, heap, forest := live, at - S, g, Replaced(f, n, t, x);
    }

    lemma SparedNew(tmp: TreeNode, was: set<TreeNode>, S: set<Id>)
      requires nodes == was + {tmp} && tmp.id !in S
      ensures Spared(nodes, S) == Spared(was, S) + {tmp}
    {
    }

    /** Nothing has been freed yet. */
    lemma SparedAll(S: set<Id>)
      ensures Alive(nodes, nodes, S)
    {
    }

    // ----- moving ---------------------------------------------------------

    /** The part of reparent that takes the siblings from first to last out of
        their list. */
    method LinkOut(first: TreeNode, last: TreeNode)
      requires Mirrors(nodes, at, heap) && first in nodes && last in nodes && TOP !in heap
      requires CanDetach(heap, first.id, last.id)
      modifies this`heap, nodes
      ensures Mirrors(nodes, at, heap) && heap == Detach(old(heap), first.id, last.id)
    {
      hide Mirrors;
      Mirrored(first);
      Mirrored(last);
      if first.prevSibling == null {
        AssignFirst(first.parent, last.nextSibling);
      } else {
        AssignNext(first.prevSibling, last.nextSibling);
      }
      Mirrored(first);
      Mirrored(last);
      if last.nextSibling == null {
        AssignLast(last.parent, first.prevSibling);
      } else {
        AssignPrev(last.nextSibling, first.prevSibling);
      }
    }

    /** The part of reparent that puts them behind the children of position. */
    method LinkIn(position: TreeNode, first: TreeNode, last: TreeNode)
      requires Mirrors(nodes, at, heap) && position in nodes && first in nodes && last in nodes && TOP !in heap
      requires CanAttach(heap, position.id, first.id, last.id) && position != first && position != last
      modifies this`heap, nodes
      ensures Mirrors(nodes, at, heap) && heap == Attach(old(heap), position.id, first.id, last.id)
    {
      hide Mirrors;
      Mirrored(position);
      Mirrored(first);
      Mirrored(last);
      if position.firstChild == null {
        AssignFirst(position, first);
        AssignLast(position, last);
        AssignPrev(first, null);
      } else {
        AssignNext(position.lastChild, first);
        Mirrored(position);
        AssignPrev(first, position.lastChild);
        AssignLast(position, last);
      }
      AssignNext(last, null);
    }

    /** The loop of reparent. */
    method AdoptRun(position: TreeNode, first: TreeNode, last: TreeNode, ghost cs: seq<Id>)
      requires Mirrors(nodes, at, heap) && position in nodes && first in nodes && last in nodes && TOP !in heap
      requires cs != [] && first.id == cs[0] && last.id == cs[|cs|-1] && NoDup(cs)
      requires forall k :: 0 <= k < |cs| ==> cs[k] in heap && heap[cs[k]].next == NextAt(cs, k)
      modifies this`heap, nodes
      ensures (forall k :: 0 <= k < |cs| ==> cs[k] in old(heap))
      ensures Mirrors(nodes, at, heap) && heap == Adopt(old(heap), cs, position.id, |cs|)
    {
      hide Mirrors, Adopt;
      ghost var h, q, k := heap, position.id, 0;
      AdoptNone(h, cs, q);
      Mirrored(position);
      var pos := first;
      while true
        invariant Mirrors(nodes, at, heap) && k < |cs| && heap == Adopt(h, cs, q, k)
        invariant pos in nodes && pos.id == cs[k]
        decreases |cs| - k
      {
        AdoptOne(h, cs, q, k);
        AdoptAt(h, cs, q, k + 1, cs[k]);
        AssignParent(pos, position);
        if pos == last {
          break;
        }
        SameId(pos, last);
        Mirrored(pos);
        pos := pos.nextSibling;
        k := k + 1;
      }
    }

    lemma SameId(m: TreeNode, n: TreeNode)
      requires Mirrors(nodes, at, heap) && m in nodes && n in nodes
      ensures m.id == n.id ==> m == n
    {
      assert NodeOk(nodes, at, heap, m) && NodeOk(nodes, at, heap, n);
    }

    /** The siblings from begin to in front of end are the children of p from
        the i-th to in front of the j-th. */
    ghost predicate Spans(begin: TreeNode?, end: TreeNode?, p: Id, i: nat, j: nat)
      reads this
    {
      && RunOf(forest, p, i, j) && begin != null && begin in nodes && begin.id == forest.kids[p][i]
      && PointsTo(nodes, end, NextAt(forest.kids[p], j - 1))
    }

    /** The part of reparent that finds the last node. */
    method LastOfRun(begin: TreeNode, end: TreeNode?, ghost p: Id, ghost i: nat, ghost j: nat) returns (last: TreeNode)
      requires Valid() && Spans(begin, end, p, i, j)
      ensures last in nodes && last.id == forest.kids[p][j-1]
    {
      hide Valid, WF;
      ghost var k := i;
      last := begin;
      KidLinksOf(begin, p, k);
      var b := begin.nextSibling;
      while b != end
        invariant i <= k < j && last in nodes && last.id == forest.kids[p][k]
        invariant PointsTo(nodes, b, NextAt(forest.kids[p], k))
        decreases j - k
      {
        NotYet(b, end, p, j, k);
        KidLinksOf(last, p, k);
        last := last.nextSibling;
        k := k + 1;
        KidLinksOf(b, p, k);
        b := b.nextSibling;
      }
      AtEnd(b, p, j, k);
    }

    /** The next sibling of the k-th child of p. */
    lemma KidLinksOf(n: TreeNode, p: Id, k: nat)
      requires Valid() && n in nodes && p in forest.kids && k < |forest.kids[p]| && n.id == forest.kids[p][k]
      ensures PointsTo(nodes, n.nextSibling, NextAt(forest.kids[p], k))
    {
      hide Valid;
      BoundIsFree();
      KidFacts(forest, p, k);
      LinksOf(n);
    }

    lemma NotYet(b: TreeNode?, end: TreeNode?, p: Id, j: nat, k: nat)
      requires Valid() && p in forest.kids && k < j <= |forest.kids[p]| && b != end
      requires PointsTo(nodes, b, NextAt(forest.kids[p], k)) && PointsTo(nodes, end, NextAt(forest.kids[p], j - 1))
      ensures k + 1 < j && b != null && b in nodes && b.id == forest.kids[p][k+1]
    {
      hide Valid, WF;
      BoundIsFree();
      if k + 1 == j && b != null && end != null {
        SameNode(b, end);
      }
      if k + 1 < j {
        KidPlace(forest, p, k + 1);
      }
    }

    /** Where the sibling behind the k-th child is the one behind the run, the
        k-th child is the last. */
    lemma AtEnd(b: TreeNode?, p: Id, j: nat, k: nat)
      requires Valid() && p in forest.kids && k < j <= |forest.kids[p]|
      requires PointsTo(nodes, b, NextAt(forest.kids[p], k)) && PointsTo(nodes, b, NextAt(forest.kids[p], j - 1))
      ensures k + 1 == j
    {
      hide Valid, WF;
      BoundIsFree();
      if k + 1 < j {
        KidPlace(forest, p, k + 1);
        if j < |forest.kids[p]| {
          KidPlace(forest, p, j);
        }
      }
    }

    /** reparent: the siblings from begin to in front of end become the last
        children of position. */
    method Reparent(position: TreeNode, begin: TreeNode?, end: TreeNode?, ghost p: Id, ghost i: nat, ghost j: nat)
      returns (ret: TreeNode?)
      requires Valid() && position in nodes && position != head && position != feet
      requires begin != end ==> WF(forest) && Spans(begin, end, p, i, j) && Movable(forest, p, i, j, position.id)
      modifies this`forest, this`heap, nodes
      ensures Valid() && ret == begin
      ensures begin == end ==> forest == old(forest)
      ensures begin != end ==> forest == old(Moved(forest, p, i, j, position.id))
    {
      hide Valid, WF, Consistent, Movable, Moved, RunOf, Piece;
      if begin == end {
        return begin;
      }
      var first := begin;
      var last := LastOfRun(first, end, p, i, j);
      MoveRun(position, first, last, p, i, j);
      ret := first;
    }

    /** reparent of all the children of from. */
    method ReparentChildren(position: TreeNode, from: TreeNode)
      requires Valid() && position in nodes && position != head && position != feet && from in nodes
      requires WF(forest) && from.id in forest.kids
      requires forest.kids[from.id] != [] ==> Movable(forest, from.id, 0, |forest.kids[from.id]|, position.id)
      modifies this`forest, this`heap, nodes
      ensures Valid() && from.id in old(forest).kids
      ensures forest == old(if forest.kids[from.id] == [] then forest
                            else Moved(forest, from.id, 0, |forest.kids[from.id]|, position.id))
    {
      hide Valid, WF, Movable, Moved;
      LinksOf(from);
      if from.firstChild == null {
        assert forest.kids[from.id] == [] by {
          KidsNotTop(from.id);
        }
        return;
      }
      var ret := Reparent(position, from.firstChild, null, from.id, 0, |forest.kids[from.id]|);
    }

    lemma KidsNotTop(n: Id)
      requires WF(forest) && n in forest.kids
      ensures forest.kids[n] != [] ==> forest.kids[n][0] != TOP
    {
      if forest.kids[n] != [] {
        KidPlace(forest, n, 0);
      }
    }

    /** reparent behind its first loop. */
    method MoveLinks(position: TreeNode, first: TreeNode, last: TreeNode, ghost cs: seq<Id>)
      requires Mirrors(nodes, at, heap) && position in nodes && first in nodes && last in nodes && TOP !in heap
      requires CanMove(heap, cs, position.id) && first.id == cs[0] && last.id == cs[|cs|-1]
               && Chained(heap, cs, position.id)
      modifies this`heap, nodes
      ensures CanMove(old(heap), cs, position.id)
      ensures Mirrors(nodes, at, heap) && heap == LinkMove(old(heap), cs, position.id)
    {
      hide Mirrors, Detach, Attach, CanDetach, CanAttach;
      ghost var h := heap;
      LinkOut(first, last);
      LinkIn(position, first, last);
      AdoptRun(position, first, last, cs);
      assert heap == Adopt(Arrived(h, cs, position.id), cs, position.id, |cs|);
    }

    method MoveRun(position: TreeNode, first: TreeNode, last: TreeNode, ghost p: Id, ghost i: nat, ghost j: nat)
      requires Valid() && position in nodes && position != head && position != feet && first in nodes && last in nodes
      requires WF(forest) && RunOf(forest, p, i, j) && Movable(forest, p, i, j, position.id)
      requires first.id == forest.kids[p][i] && last.id == forest.kids[p][j-1]
      modifies this`forest, this`heap, nodes
      ensures Valid() && forest == old(Moved(forest, p, i, j, position.id))
    {
      hide WF, Consistent, Movable, Moved, Mirrors, CanMove, LinkMove, Realizes, Bracketed, Chained;
      ghost var h, f, q, cs := heap, forest, position.id, Piece(forest.kids[p], i, j);
      OtherNode(position, head);
      OtherNode(position, feet);
      NodeKnown(h, f, head.id, feet.id, q);
      MoveConsistent(h, f, p, i, j, q, head.id, feet.id);
      MoveReady(h, f, p, i, j, q);
      MoveLinks(position, first, last, cs);
      forest := Moved(f, p, i, j, q);
    }

    lemma SparedRoot(cur: TreeNode)
      requires Valid() && cur in nodes && WF(forest)
      ensures Spared(nodes, Below(forest, cur.id)) - {cur} == Spared(nodes, Subtree(forest, cur.id))
    {
      hide Below, Consistent, Mirrors, Numbered, WF;
      forall m | m in nodes && m.id == cur.id
        ensures m == cur
      {
        SameNode(m, cur);
      }
    }

    lemma OtherNode(m: TreeNode, n: TreeNode)
      requires Valid() && m in nodes && n in nodes && m != n
      ensures m.id != n.id && m.id in heap && NodeOk(nodes, at, heap, m)
    {
      hide Consistent;
      assert NodeOk(nodes, at, heap, m) && NodeOk(nodes, at, heap, n);
    }

    /** clear: only the sentinels stay. */
    method Clear()
      requires Valid()
      modifies this`forest, this`heap, this`at, this`nodes, nodes
      ensures Valid() && nodes == {head, feet} && nodes <= old(nodes)
      ensures TOP in forest.kids && forest.kids[TOP] == [head.id, feet.id]
    {
      hide Valid, Erased, Subtree, WF;
      BeginLinks();
      while head.nextSibling != feet
        invariant Valid() && nodes <= old(nodes) && TOP in forest.kids
        invariant head.nextSibling != null && head.nextSibling in nodes && head.nextSibling != head
        invariant TopPlace(head.nextSibling, 1)
        decreases |forest.kids[TOP]|
      {
        LinksOf(head.nextSibling);
        BoundIsFree();
        ErasedTop(forest, head.nextSibling.id);
        Erase(head.nextSibling);
        BeginLinks();
      }
      OnlySentinelsLeft();
    }

    lemma OnlySentinelsLeft()
      requires Valid() && head.nextSibling == feet
      ensures nodes == {head, feet} && TOP in forest.kids && forest.kids[TOP] == [head.id, feet.id]
    {
      hide Valid, WF, Realizes, Bracketed, Domains, Consistent;
      ValidParts();
      BeginLinks();
      ConsistentParts(heap, forest, head.id, feet.id);
      TwoAtTop(forest, head.id, feet.id);
      forall n | n in nodes
        ensures n == head || n == feet
      {
        LinksOf(n);
        OnlySentinels(forest, head.id, feet.id, n.id);
        SameNode(n, if n.id == head.id then head else feet);
      }
    }

    /** A change of the datum through an iterator. */
    method AssignData(n: TreeNode, x: HtmlNode)
      requires Valid() && n in nodes
      modifies this`heap, this`forest, n`data
      ensures Valid() && n.id in old(forest.data) && forest == WithData(old(forest), n.id, x)
    {
      hide Consistent;
      assert NodeOk(nodes, at, heap, n) && NodeOk(nodes, at, heap, head) && NodeOk(nodes, at, heap, feet);
      SetDataConsistent(heap, forest, n.id, x, head.id, feet.id);
      n.data := x;
      heap := SetData(heap, n.id, x);
      forest := WithData(forest, n.id, x);
      forall m | m in nodes
        ensures NodeOk(nodes, at, heap, m)
      {
        assert old(NodeOk(nodes, at, heap, m));
      }
    }

    /** begin: the first node of the top level, or feet. */
    method Begin() returns (n: TreeNode)
      requires Valid()
      ensures n in nodes && n != head && TopPlace(n, 1)
    {
      hide *;
      BeginLinks();
      n := head.nextSibling;
    }

    /** n is the k-th node of the top level. */
    ghost predicate TopPlace(n: TreeNode, k: nat)
      reads this
    {
      && TOP in forest.kids && k < |forest.kids[TOP]| && n.id == forest.kids[TOP][k]
      && n.id in forest.par && n.id in forest.idx && forest.par[n.id] == TOP && forest.idx[n.id] == k
    }

    lemma BeginLinks()
      requires Valid()
      ensures head.nextSibling != null && head.nextSibling in nodes && head.nextSibling != head
      ensures TopPlace(head.nextSibling, 1)
    {
      hide Valid, Consistent, WF, Realizes, Domains, Wanted, Mirrors, Numbered;
      assert head in nodes && Consistent(heap, forest, head.id, feet.id) by {
        ValidParts();
      }
      TopTwo(heap, forest, head.id, feet.id);
      LinksOf(head);
    }

    lemma ValidParts()
      requires Valid()
      ensures head in nodes && feet in nodes && Consistent(heap, forest, head.id, feet.id)
    {
    }

    /** What the links of a node say about its place in the forest. */
    lemma LinksOf(n: TreeNode)
      requires Valid() && n in nodes
      ensures n.id in forest.par && n.id in forest.kids && n.id in forest.data && n.id != TOP
      ensures n.data == forest.data[n.id]
      ensures forest.par[n.id] in forest.kids && forest.idx[n.id] < |forest.kids[forest.par[n.id]]|
      ensures PointsTo(nodes, n.parent, forest.par[n.id])
      ensures PointsTo(nodes, n.nextSibling, NextAt(forest.kids[forest.par[n.id]], forest.idx[n.id]))
      ensures PointsTo(nodes, n.prevSibling, PrevAt(forest.kids[forest.par[n.id]], forest.idx[n.id]))
      ensures PointsTo(nodes, n.firstChild, FirstOf(forest.kids[n.id]))
      ensures PointsTo(nodes, n.lastChild, LastOf(forest.kids[n.id]))
    {
      hide WF, Realizes, Bracketed, Domains, Wanted;
      assert NodeOk(nodes, at, heap, n);
      ConsistentParts(heap, forest, head.id, feet.id);
      PlaceLinks(heap, forest, n.id);
      DataLinks(heap, forest, n.id);
      NodeKnown(heap, forest, head.id, feet.id, n.id);
    }

    lemma BoundIsFree()
      requires Valid()
      ensures WF(forest) && Domains(forest) && forest.bound !in forest.par && forest.bound != TOP
      ensures head in nodes && feet in nodes
    {
      hide WF, Realizes, Bracketed, Domains;
      assert NodeOk(nodes, at, heap, head);
      NodeKnown(heap, forest, head.id, feet.id, head.id);
      FreeBound(heap, forest, head.id, feet.id);
    }

    /** A node is known by its number. */
    lemma SameNode(m: TreeNode, n: TreeNode)
      requires Valid() && m in nodes && n in nodes && m.id == n.id
      ensures m == n
    {
      hide Consistent;
      assert NodeOk(nodes, at, heap, m) && NodeOk(nodes, at, heap, n);
    }
  }
}
