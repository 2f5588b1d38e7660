/** How a forest of nodes and its current node stand for the stack of open
    elements: the open elements are the rightmost spine. */
module DomForest {
  import opened HtmlNodes
  import opened Forests
  import opened DomModel
  import opened Seqs

  ghost predicate SpineNode(f: Forest, spine: seq<Id>, st: seq<Frame>, j: nat)
    requires WF(f) && |spine| == |st| && j < |spine|
  {
    && spine[j] in f.par
    && f.data[spine[j]] == st[j].node
    && f.par[spine[j]] == (if j == 0 then TOP else spine[j-1])
    && |f.kids[spine[j]]| == |st[j].kids| + (if j == |spine| - 1 then 0 else 1)
    && (j < |spine| - 1 ==> f.kids[spine[j]][|st[j].kids|] == spine[j+1])
  }

  ghost predicate SpineKid(f: Forest, p: Id, i: nat, t: Tree)
    requires WF(f)
  {
    && p in f.kids && i < |f.kids[p]|
    && f.kids[p][i] in f.par
    && TreeOf(f, f.kids[p][i]) == t
  }

  /** Each open element is the last child of the one before it; before that
      child come the finished subtrees. */
  ghost predicate Represents(f: Forest, spine: seq<Id>, st: seq<Frame>) {
    && WF(f)
    && |spine| == |st| > 0
    && spine[|spine|-1] in f.par
    && (forall j :: 0 <= j < |spine| ==> SpineNode(f, spine, st, j))
    && (forall j, i :: 0 <= j < |spine| && 0 <= i < |st[j].kids| ==> SpineKid(f, spine[j], i, st[j].kids[i]))
  }

  ghost function OffSpine(f: Forest, spine: seq<Id>): set<Id> {
    set n | n in f.par && n !in spine
  }

  lemma {:induction false} SpineRank(f: Forest, spine: seq<Id>, st: seq<Frame>, i: nat, j: nat)
    requires Represents(f, spine, st) && i < j < |spine|
    ensures spine[i] in f.par && spine[j] in f.par && f.rank[spine[i]] < f.rank[spine[j]]
    decreases j - i
  {
    assert SpineNode(f, spine, st, i);
    assert SpineNode(f, spine, st, j);
    assert Placed(f, spine[j]);
    if i < j - 1 {
      SpineRank(f, spine, st, i, j - 1);
    }
  }

  lemma SpineDistinct(f: Forest, spine: seq<Id>, st: seq<Frame>)
    requires Represents(f, spine, st)
    ensures NoDup(spine)
  {
    forall i, j | 0 <= i < j < |spine|
      ensures spine[i] != spine[j]
    {
      SpineRank(f, spine, st, i, j);
    }
  }

  lemma OffSpineClosed(f: Forest, spine: seq<Id>, st: seq<Frame>)
    requires Represents(f, spine, st)
    ensures ClosedSet(f, OffSpine(f, spine))
  {
    var S := OffSpine(f, spine);
    forall n, i | n in S && n in f.kids && 0 <= i < |f.kids[n]|
      ensures f.kids[n][i] in S
    {
      KidFacts(f, n, i);
      var c := f.kids[n][i];
      forall j | 0 <= j < |spine|
        ensures spine[j] != c
      {
        assert SpineNode(f, spine, st, j);
      }
    }
  }

  lemma FinishedOffSpine(f: Forest, spine: seq<Id>, st: seq<Frame>, j: nat, i: nat)
    requires Represents(f, spine, st) && j < |spine| && i < |st[j].kids|
    ensures spine[j] in f.kids && i < |f.kids[spine[j]]|
    ensures f.kids[spine[j]][i] in OffSpine(f, spine)
  {
    assert SpineNode(f, spine, st, j);
    KidFacts(f, spine[j], i);
    var c := f.kids[spine[j]][i];
    SpineDistinct(f, spine, st);
    if j < |spine| - 1 {
      KidFacts(f, spine[j], |st[j].kids|);
    }
    forall m | 0 <= m < |spine|
      ensures spine[m] != c
    {
      assert SpineNode(f, spine, st, m);
    }
  }

  /** Off the spine g is like f. */
  ghost predicate KeepsOffSpine(f: Forest, g: Forest, spine: seq<Id>)
    requires WF(f) && WF(g)
  {
    forall m | m in OffSpine(f, spine) ::
      m in g.par && f.kids[m] == g.kids[m] && f.data[m] == g.data[m]
  }

  /** What is finished stays as it is while only the spine changes. */
  lemma FinishedKept(f: Forest, g: Forest, spine: seq<Id>, st: seq<Frame>, j: nat, i: nat)
    requires Represents(f, spine, st) && WF(g) && KeepsOffSpine(f, g, spine)
    requires j < |spine| && i < |st[j].kids|
    ensures spine[j] in f.kids && i < |f.kids[spine[j]]| && f.kids[spine[j]][i] in g.par
    ensures TreeOf(g, f.kids[spine[j]][i]) == st[j].kids[i]
  {
    FinishedOffSpine(f, spine, st, j, i);
    OffSpineClosed(f, spine, st);
    assert SpineKid(f, spine[j], i, st[j].kids[i]);
    SameTree(f, g, OffSpine(f, spine), f.kids[spine[j]][i]);
  }

  lemma LeafTree(f: Forest, n: Id)
    requires WF(f) && n in f.par && f.kids[n] == []
    ensures TreeOf(f, n) == Leaf(f.data[n])
  {
  }

  // ----- the steps --------------------------------------------------------

  /** g is f with n, a leaf, as a new last child of p. */
  ghost predicate Grown(f: Forest, g: Forest, p: Id, n: Id, x: HtmlNode) {
    && WF(f) && WF(g) && p in f.par && n !in f.par && n != TOP
    && g.kids == f.kids[p := f.kids[p] + [n]][n := []]
    && g.par == f.par[n := p]
    && g.data == f.data[n := x]
  }

  lemma AppendedGrown(f: Forest, p: Id, n: Id, x: HtmlNode)
    requires WF(f) && p in f.par && n !in f.par && n != TOP
    ensures Grown(f, Appended(f, p, n, x), p, n, x)
  {
    InsertedWF(f, p, |f.kids[p]|, n, x);
    assert Splice(f.kids[p], |f.kids[p]|, [n]) == f.kids[p] + [n];
  }

  lemma GrownSpineNode(f: Forest, g: Forest, spine: seq<Id>, st: seq<Frame>, n: Id, x: HtmlNode, j: nat)
    requires Represents(f, spine, st) && Grown(f, g, spine[|spine|-1], n, x) && j < |spine|
    ensures SpineNode(g, spine, AppendLeaf(st, Leaf(x)), j)
    ensures SpineNode(g, spine + [n], st + [Frame(x, [])], j)
  {
    SpineDistinct(f, spine, st);
    assert SpineNode(f, spine, st, j);
  }

  lemma GrownSpineKid(f: Forest, g: Forest, spine: seq<Id>, st: seq<Frame>, n: Id, x: HtmlNode, j: nat, i: nat)
    requires Represents(f, spine, st) && Grown(f, g, spine[|spine|-1], n, x)
    requires j < |spine| && i < |st[j].kids|
    ensures SpineKid(g, spine[j], i, st[j].kids[i])
  {
    assert SpineNode(f, spine, st, j);
    assert KeepsOffSpine(f, g, spine);
    FinishedKept(f, g, spine, st, j, i);
  }

  /** A new last child of the current node that is finished at once. */
  lemma RepresentsLeaf(f: Forest, spine: seq<Id>, st: seq<Frame>, n: Id, x: HtmlNode)
    requires Represents(f, spine, st) && n !in f.par && n != TOP
    ensures Represents(Appended(f, spine[|spine|-1], n, x), spine, AppendLeaf(st, Leaf(x)))
  {
    var k := |spine| - 1;
    AppendedGrown(f, spine[k], n, x);
    GrownLeaf(f, Appended(f, spine[k], n, x), spine, st, n, x);
  }

  lemma GrownLeaf(f: Forest, g: Forest, spine: seq<Id>, st: seq<Frame>, n: Id, x: HtmlNode)
    requires Represents(f, spine, st) && Grown(f, g, spine[|spine|-1], n, x)
    ensures Represents(g, spine, AppendLeaf(st, Leaf(x)))
  {
    var st' := AppendLeaf(st, Leaf(x));
    forall j | 0 <= j < |spine|
      ensures SpineNode(g, spine, st', j)
    {
      GrownSpineNode(f, g, spine, st, n, x, j);
    }
    forall j, i | 0 <= j < |spine| && 0 <= i < |st'[j].kids|
      ensures SpineKid(g, spine[j], i, st'[j].kids[i])
    {
      if i < |st[j].kids| {
        GrownSpineKid(f, g, spine, st, n, x, j, i);
      } else {
        assert SpineNode(f, spine, st, j);
        LeafTree(g, n);
      }
    }
  }

  /** A new last child of the current node that becomes the current node. */
  lemma RepresentsPush(f: Forest, spine: seq<Id>, st: seq<Frame>, n: Id, x: HtmlNode)
    requires Represents(f, spine, st) && n !in f.par && n != TOP
    ensures Represents(Appended(f, spine[|spine|-1], n, x), spine + [n], st + [Frame(x, [])])
  {
    var k := |spine| - 1;
    AppendedGrown(f, spine[k], n, x);
    GrownPush(f, Appended(f, spine[k], n, x), spine, st, n, x);
  }

  lemma GrownPush(f: Forest, g: Forest, spine: seq<Id>, st: seq<Frame>, n: Id, x: HtmlNode)
    requires Represents(f, spine, st) && Grown(f, g, spine[|spine|-1], n, x)
    ensures Represents(g, spine + [n], st + [Frame(x, [])])
  {
    var spine', st' := spine + [n], st + [Frame(x, [])];
    forall j | 0 <= j < |spine'|
      ensures SpineNode(g, spine', st', j)
    {
      if j < |spine| {
        GrownSpineNode(f, g, spine, st, n, x, j);
      }
    }
    forall j, i | 0 <= j < |spine'| && 0 <= i < |st'[j].kids|
      ensures SpineKid(g, spine'[j], i, st'[j].kids[i])
    {
      GrownSpineKid(f, g, spine, st, n, x, j, i);
    }
  }

  /** A change of an open element's datum. */
  lemma RepresentsData(f: Forest, spine: seq<Id>, st: seq<Frame>, k: nat, x: HtmlNode)
    requires Represents(f, spine, st) && k < |spine|
    ensures spine[k] in f.data
    ensures Represents(WithData(f, spine[k], x), spine, st[k := Frame(x, st[k].kids)])
  {
    assert SpineNode(f, spine, st, k);
    var g, st' := WithData(f, spine[k], x), st[k := Frame(x, st[k].kids)];
    WithDataWF(f, spine[k], x);
    SpineDistinct(f, spine, st);
    assert KeepsOffSpine(f, g, spine);
    forall j | 0 <= j < |spine|
      ensures SpineNode(g, spine, st', j)
    {
      assert SpineNode(f, spine, st, j);
    }
    forall j, i | 0 <= j < |spine| && 0 <= i < |st'[j].kids|
      ensures SpineKid(g, spine[j], i, st'[j].kids[i])
    {
      assert SpineNode(f, spine, st, j);
      FinishedKept(f, g, spine, st, j, i);
    }
  }

  /** The stack with its innermost element given up: a leaf, followed by what
      it held, at the end of the element around it. */
  ghost function GiveUpTop(st: seq<Frame>): seq<Frame>
    requires |st| > 1
  {
    var top, below := st[|st|-1], st[|st|-2];
    st[..|st|-2] + [Frame(below.node, below.kids + [Leaf(top.node)] + top.kids)]
  }

  /** g is f with the children of n, the last child of p, moved behind n. */
  ghost predicate GivenUp(f: Forest, g: Forest, p: Id, n: Id) {
    && WF(f) && WF(g) && p in f.par && n in f.par && n != p
    && g.kids == f.kids[p := f.kids[p] + f.kids[n]][n := []]
    && g.par.Keys == f.par.Keys
    && (forall m | m in f.par && f.par[m] != n :: g.par[m] == f.par[m])
    && g.data == f.data
  }

  lemma FlattenedGivenUp(f: Forest, p: Id, n: Id)
    requires WF(f) && p in f.par && n in f.par && f.par[n] == p && f.idx[n] == |f.kids[p]| - 1
    ensures GivenUp(f, Flattened(f, n), p, n)
  {
    assert Placed(f, n);
    FlattenedWF(f, n);
    if f.kids[n] == [] {
      assert f.kids[p] + [] == f.kids[p];
      assert f.kids[p := f.kids[p]][n := []] == f.kids;
    } else {
      assert Splice(f.kids[p], |f.kids[p]|, f.kids[n]) == f.kids[p] + f.kids[n];
    }
  }

  lemma GivenUpSpineNode(f: Forest, g: Forest, spine: seq<Id>, st: seq<Frame>, j: nat)
    requires Represents(f, spine, st) && |spine| > 1 && j < |spine| - 1
    requires GivenUp(f, g, spine[|spine|-2], spine[|spine|-1])
    ensures SpineNode(g, spine[..|spine|-1], GiveUpTop(st), j)
  {
    SpineDistinct(f, spine, st);
    assert SpineNode(f, spine, st, j);
    assert SpineNode(f, spine, st, |spine| - 1);
    assert SpineNode(f, spine, st, |spine| - 2);
  }

  lemma GivenUpSpineKid(f: Forest, g: Forest, spine: seq<Id>, st: seq<Frame>, j: nat, i: nat)
    requires Represents(f, spine, st) && |spine| > 1 && j < |spine| - 1
    requires GivenUp(f, g, spine[|spine|-2], spine[|spine|-1])
    requires i < |GiveUpTop(st)[j].kids|
    ensures SpineKid(g, spine[j], i, GiveUpTop(st)[j].kids[i])
  {
    var k := |spine| - 1;
    var n := spine[k];
    assert KeepsOffSpine(f, g, spine);
    SpineDistinct(f, spine, st);
    assert SpineNode(f, spine, st, j);
    assert SpineNode(f, spine, st, k);
    var m := |st[j].kids|;
    if i < m {
      FinishedKept(f, g, spine, st, j, i);
    } else if i == m {
      LeafTree(g, n);
    } else {
      FinishedKept(f, g, spine, st, k, i - m - 1);
    }
  }

  /** Flattening the current node. */
  lemma RepresentsFlatten(f: Forest, spine: seq<Id>, st: seq<Frame>)
    requires Represents(f, spine, st) && |spine| > 1
    ensures Represents(Flattened(f, spine[|spine|-1]), spine[..|spine|-1], GiveUpTop(st))
  {
    var k := |spine| - 1;
    var g := Flattened(f, spine[k]);
    assert SpineNode(f, spine, st, k);
    assert SpineNode(f, spine, st, k - 1);
    KidFacts(f, spine[k-1], |st[k-1].kids|);
    FlattenedGivenUp(f, spine[k-1], spine[k]);
    GivenUpRepresents(f, g, spine, st);
  }

  lemma GivenUpRepresents(f: Forest, g: Forest, spine: seq<Id>, st: seq<Frame>)
    requires Represents(f, spine, st) && |spine| > 1
    requires GivenUp(f, g, spine[|spine|-2], spine[|spine|-1])
    ensures Represents(g, spine[..|spine|-1], GiveUpTop(st))
  {
    var spine', st' := spine[..|spine|-1], GiveUpTop(st);
    forall j | 0 <= j < |spine'|
      ensures SpineNode(g, spine', st', j)
    {
      GivenUpSpineNode(f, g, spine, st, j);
    }
    forall j, i | 0 <= j < |spine'| && 0 <= i < |st'[j].kids|
      ensures SpineKid(g, spine'[j], i, st'[j].kids[i])
    {
      GivenUpSpineKid(f, g, spine, st, j, i);
    }
  }

  /** The innermost element counts as finished; the current node is the one
      around it. */
  lemma RepresentsPop(f: Forest, spine: seq<Id>, st: seq<Frame>)
    requires Represents(f, spine, st) && |spine| > 1
    ensures var top := st[|st|-1];
            Represents(f, spine[..|spine|-1], AppendLeaf(st[..|st|-1], Tree(top.node, top.kids)))
  {
    var k := |spine| - 1;
    var top := st[k];
    var spine', st' := spine[..k], AppendLeaf(st[..k], Tree(top.node, top.kids));
    assert SpineNode(f, spine, st, k);
    assert SpineNode(f, spine, st, k - 1);
    forall j | 0 <= j < |spine'|
      ensures SpineNode(f, spine', st', j)
    {
      assert SpineNode(f, spine, st, j);
    }
    forall j, i | 0 <= j < |spine'| && 0 <= i < |st'[j].kids|
      ensures SpineKid(f, spine'[j], i, st'[j].kids[i])
    {
      assert SpineNode(f, spine, st, j);
      if i < |st[j].kids| {
        assert SpineKid(f, spine[j], i, st[j].kids[i]);
      } else {
        TopTree(f, spine, st);
      }
    }
  }

  lemma TopTree(f: Forest, spine: seq<Id>, st: seq<Frame>)
    requires Represents(f, spine, st)
    ensures var top := st[|st|-1];
            spine[|spine|-1] in f.par && TreeOf(f, spine[|spine|-1]) == Tree(top.node, top.kids)
  {
    var k := |spine| - 1;
    assert SpineNode(f, spine, st, k);
    forall i | 0 <= i < |st[k].kids|
      ensures i < |f.kids[spine[k]]| && f.kids[spine[k]][i] in f.par && TreeOf(f, f.kids[spine[k]][i]) == st[k].kids[i]
    {
      assert SpineKid(f, spine[k], i, st[k].kids[i]);
    }
  }

  /** The tree at the j-th open element is the zipped rest of the stack. */
  lemma {:induction false} RepresentsZip(f: Forest, spine: seq<Id>, st: seq<Frame>, j: nat)
    requires Represents(f, spine, st) && j < |spine|
    ensures spine[j] in f.par && TreeOf(f, spine[j]) == Zip(st[j..])
    decreases |spine| - j
  {
    assert SpineNode(f, spine, st, j);
    if j == |spine| - 1 {
      TopTree(f, spine, st);
    } else {
      RepresentsZip(f, spine, st, j + 1);
      assert st[j..][1..] == st[j+1..];
      var z := Zip(st[j..]);
      forall i | 0 <= i < |z.kids|
        ensures i < |f.kids[spine[j]]| && f.kids[spine[j]][i] in f.par && TreeOf(f, f.kids[spine[j]][i]) == z.kids[i]
      {
        if i < |st[j].kids| {
          assert SpineKid(f, spine[j], i, st[j].kids[i]);
        }
      }
      assert TreeOf(f, spine[j]).kids == z.kids;
    }
  }
}
