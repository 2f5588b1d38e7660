/** The walk of tree::replace over a subtree and the copy that grows with it. */
module CopyWalk {
  import opened HtmlNodes
  import opened Forests
  import opened ForestErase
  import opened ForestOrder
  import opened ForestCopy
  import opened DomModel
  import opened Seqs

  /** Below p and q the j-th children head the same tree. */
  ghost predicate SameKid(f: Forest, p: Id, g: Forest, q: Id, j: nat)
    requires WF(f) && WF(g)
  {
    && p in f.kids && q in g.kids && j < |f.kids[p]| && j < |g.kids[q]|
    && f.kids[p][j] in f.par && g.kids[q][j] in g.par
    && TreeOf(f, f.kids[p][j]) == TreeOf(g, g.kids[q][j])
  }

  /** The walk below s has come to c, the copy below r to t: the way from s to
      c is copied, and so is all that lies to the left of it. */
  ghost predicate Spine(f: Forest, s: Id, c: Id, g: Forest, r: Id, t: Id)
    requires WF(f) && WF(g)
    decreases if c in f.rank then f.rank[c] else 0
  {
    && c in f.par && t in g.par && f.data[c] == g.data[t]
    && if c == s then t == r
       else
         assert Placed(f, c) && Placed(g, t);
         var p, q := f.par[c], g.par[t];
         && p in f.par && q in g.par
         && |g.kids[q]| == f.idx[c] + 1 && g.idx[t] == f.idx[c]
         && (forall j :: 0 <= j < f.idx[c] ==> SameKid(f, p, g, q, j))
         && Spine(f, s, p, g, r, q)
  }

  /** The subtree at c is copied whole to t. */
  ghost predicate Done(f: Forest, c: Id, g: Forest, t: Id)
    requires WF(f) && WF(g)
  {
    c in f.par && t in g.par && TreeOf(f, c) == TreeOf(g, t)
  }

  /** One level of the spine. */
  lemma SpineLevel(f: Forest, s: Id, c: Id, g: Forest, r: Id, t: Id)
    requires WF(f) && WF(g) && Spine(f, s, c, g, r, t) && c != s
    ensures c in f.par && c in f.idx && t in g.par && t in g.idx && f.data[c] == g.data[t]
    ensures var p, q := f.par[c], g.par[t];
            && p in f.rank && c in f.rank && p in f.par && p in f.kids && q in g.par && q in g.kids
            && f.idx[c] < |f.kids[p]| && f.kids[p][f.idx[c]] == c && f.rank[p] < f.rank[c]
            && |g.kids[q]| == f.idx[c] + 1 && g.idx[t] == f.idx[c] && g.kids[q][f.idx[c]] == t && g.rank[q] < g.rank[t]
            && (forall j :: 0 <= j < f.idx[c] ==> SameKid(f, p, g, q, j))
            && Spine(f, s, p, g, r, q)
  {
    assert Placed(f, c) && Placed(g, t);
  }

  lemma {:induction false} SpineUnder(f: Forest, s: Id, c: Id, g: Forest, r: Id, t: Id)
    requires WF(f) && WF(g) && Spine(f, s, c, g, r, t)
    ensures t in Subtree(g, r) && c in Subtree(f, s) && r in g.par && s in f.par
    decreases f.rank[c]
  {
    if c != s {
      SpineLevel(f, s, c, g, r, t);
      SpineUnder(f, s, f.par[c], g, r, g.par[t]);
      SubtreeCloses(f, s, c);
      SubtreeCloses(g, r, t);
    }
  }

  /** A tree that the new node does not belong to stays. */
  lemma TreeAppended(g: Forest, w: Id, n: Id, x: HtmlNode, m: Id)
    requires WF(g) && w in g.par && n !in g.par && n != TOP && m in g.par && w !in Subtree(g, m)
    ensures var h := Appended(g, w, n, x); WF(h) && m in h.par && TreeOf(h, m) == TreeOf(g, m)
  {
    hide Appended;
    AppendedFacts(g, w, n, x);
    SubtreeClosed(g, m);
    SameTree(g, Appended(g, w, n, x), Subtree(g, m), m);
  }

  /** What is below one child is not below another one. */
  lemma OtherBranch(g: Forest, q: Id, i: nat, j: nat, w: Id)
    requires WF(g) && q in g.kids && i < |g.kids[q]| && j < |g.kids[q]| && i != j
    requires w in g.par && g.kids[q][i] in g.par && w in Subtree(g, g.kids[q][i])
    ensures w !in Subtree(g, g.kids[q][j]) && w != q
  {
    BranchIs(g, w, q, i);
    BranchIs(g, w, q, j);
    KidFacts(g, q, i);
    if w == q {
      SubtreeCloses(g, g.kids[q][i], g.kids[q][i]);
    }
  }

  /** A parent is not below its child. */
  lemma NotBelowKid(g: Forest, q: Id, j: nat)
    requires WF(g) && q in g.par && q in g.kids && j < |g.kids[q]|
    ensures g.kids[q][j] in g.par && q !in Subtree(g, g.kids[q][j])
  {
    KidFacts(g, q, j);
    SubtreeCloses(g, g.kids[q][j], q);
  }

  lemma SameKidKept(f: Forest, p: Id, g: Forest, q: Id, j: nat, w: Id, n: Id, x: HtmlNode)
    requires WF(f) && WF(g) && SameKid(f, p, g, q, j)
    requires w in g.par && n !in g.par && n != TOP && w !in Subtree(g, g.kids[q][j])
    ensures WF(Appended(g, w, n, x)) && SameKid(f, p, Appended(g, w, n, x), q, j)
  {
    hide Appended, Subtree;
    AppendedFacts(g, w, n, x);
    TreeAppended(g, w, n, x, g.kids[q][j]);
  }

  /** The spine stands while a node comes below its end. */
  lemma {:induction false} SpineKept(f: Forest, s: Id, c: Id, g: Forest, r: Id, t: Id, w: Id, n: Id, x: HtmlNode)
    requires WF(f) && WF(g) && Spine(f, s, c, g, r, t)
    requires w in g.par && w in Subtree(g, t) && n !in g.par && n != TOP
    ensures WF(Appended(g, w, n, x)) && Spine(f, s, c, Appended(g, w, n, x), r, t)
    decreases f.rank[c]
  {
    hide Appended, Subtree, WF, SameKid;
    InKids(g, w);
    AppendedFacts(g, w, n, x);
    var h := Appended(g, w, n, x);
    if c != s {
      SpineLevel(f, s, c, g, r, t);
      var p, q, i := f.par[c], g.par[t], f.idx[c];
      SubtreeUp(g, t, w);
      SpineKept(f, s, p, g, r, q, w, n, x);
      forall j | 0 <= j < i
        ensures SameKid(f, p, h, q, j)
      {
        OtherBranch(g, q, i, j, w);
        SameKidKept(f, p, g, q, j, w, n, x);
      }
      SpineGrow(f, s, c, h, r, t);
    }
  }

  /** What belongs to t belongs to t's parent. */
  lemma SubtreeUp(g: Forest, t: Id, w: Id)
    requires WF(g) && t in g.par && g.par[t] in g.par && w in g.par && w in Subtree(g, t)
    ensures w in Subtree(g, g.par[t]) && w != g.par[t]
  {
    NodeAt(g, t);
    BranchIs(g, w, g.par[t], g.idx[t]);
    SubtreeCloses(g, t, t);
  }

  /** The spine, one level longer. */
  lemma SpineGrow(f: Forest, s: Id, c: Id, g: Forest, r: Id, t: Id)
    requires WF(f) && WF(g) && c != s && c in f.par && t in g.par && f.data[c] == g.data[t]
    requires c in f.idx && t in g.idx && f.par[c] in f.par && g.par[t] in g.par && g.par[t] in g.kids
    requires |g.kids[g.par[t]]| == f.idx[c] + 1 && g.idx[t] == f.idx[c]
    requires forall j :: 0 <= j < f.idx[c] ==> SameKid(f, f.par[c], g, g.par[t], j)
    requires Spine(f, s, f.par[c], g, r, g.par[t])
    ensures Spine(f, s, c, g, r, t)
  {
    assert Placed(f, c) && Placed(g, t);
  }

  // ----- the four moves ---------------------------------------------------

  /** Down to the first child. */
  lemma WalkDown(f: Forest, s: Id, c: Id, g: Forest, r: Id, t: Id, n: Id)
    requires WF(f) && WF(g) && Spine(f, s, c, g, r, t) && c in f.kids && f.kids[c] != [] && f.kids[c][0] in f.data
    requires s in f.par && t in g.kids && g.kids[t] == [] && n !in g.par && n != TOP
    requires f.kids[c][0] != s
    ensures var h := Appended(g, t, n, f.data[f.kids[c][0]]);
            WF(h) && n in h.par && n in h.kids && h.kids[n] == [] && Spine(f, s, f.kids[c][0], h, r, n)
  {
    hide Appended, Subtree, WF, SameKid;
    var d := f.kids[c][0];
    var x := f.data[d];
    AppendedFacts(g, t, n, x);
    InOwn(g, t);
    SpineKept(f, s, c, g, r, t, t, n, x);
    FirstKid(f, c);
    SpineGrow(f, s, d, Appended(g, t, n, x), r, n);
  }

  lemma FirstKid(f: Forest, c: Id)
    requires WF(f) && c in f.par && f.kids[c] != []
    ensures var d := f.kids[c][0]; d in f.par && d in f.idx && d in f.data && f.par[d] == c && f.idx[d] == 0
  {
    KidFacts(f, c, 0);
  }

  lemma InKids(g: Forest, w: Id)
    requires WF(g) && w in g.par
    ensures w in g.kids && Domains(g)
  {
  }

  lemma InOwn(g: Forest, t: Id)
    requires WF(g)
    ensures t in Subtree(g, t)
  {
  }

  /** Over to the next sibling, when c is done. */
  lemma WalkSide(f: Forest, s: Id, c: Id, g: Forest, r: Id, t: Id, n: Id)
    requires WF(f) && WF(g) && Spine(f, s, c, g, r, t) && c != s && Done(f, c, g, t)
    requires c in f.par && NextSibling(f, c) != TOP && t in g.par && n !in g.par && n != TOP && NextSibling(f, c) != s
    ensures var d, q := NextSibling(f, c), g.par[t];
            && d in f.par && d in f.data && q in g.par && q in g.kids
            && var h := Appended(g, q, n, f.data[d]);
               WF(h) && n in h.par && n in h.kids && h.kids[n] == [] && Spine(f, s, d, h, r, n)
  {
    hide Appended, Subtree, WF, SameKid, Done;
    SpineLevel(f, s, c, g, r, t);
    var p, q, i := f.par[c], g.par[t], f.idx[c];
    NextIs(f, c);
    var d := NextSibling(f, c);
    var x := f.data[d];
    AppendedFacts(g, q, n, x);
    var h := Appended(g, q, n, x);
    InOwn(g, q);
    SpineKept(f, s, p, g, r, q, q, n, x);
    DoneKid(f, p, g, q, i);
    forall j | 0 <= j <= i
      ensures SameKid(f, p, h, q, j)
    {
      NotBelowKid(g, q, j);
      SameKidKept(f, p, g, q, j, q, n, x);
    }
    SpineGrow(f, s, d, h, r, n);
  }

  lemma NextIs(f: Forest, c: Id)
    requires WF(f) && c in f.par && NextSibling(f, c) != TOP
    ensures var d := NextSibling(f, c);
            d in f.par && d in f.data && d in f.idx && c in f.idx && f.par[d] == f.par[c] && f.idx[d] == f.idx[c] + 1
  {
    NodeAt(f, c);
    KidFacts(f, f.par[c], f.idx[c] + 1);
  }

  lemma DoneKid(f: Forest, p: Id, g: Forest, q: Id, i: nat)
    requires WF(f) && WF(g) && p in f.kids && q in g.kids && i < |f.kids[p]| && i < |g.kids[q]|
    requires Done(f, f.kids[p][i], g, g.kids[q][i])
    ensures SameKid(f, p, g, q, i)
  {
  }

  /** Up to the parent: it is done with its last child. */
  lemma WalkUp(f: Forest, s: Id, c: Id, g: Forest, r: Id, t: Id)
    requires WF(f) && WF(g) && Spine(f, s, c, g, r, t) && c != s && Done(f, c, g, t)
    requires c in f.par && NextSibling(f, c) == TOP && t in g.par
    ensures f.par[c] in f.par && g.par[t] in g.par && g.par[t] != TOP && f.par[c] != TOP
    ensures Spine(f, s, f.par[c], g, r, g.par[t]) && Done(f, f.par[c], g, g.par[t])
    ensures f.rank[f.par[c]] < f.rank[c]
  {
    hide WF, Done, SameKid, NextSibling;
    SpineLevel(f, s, c, g, r, t);
    NoNext(f, c);
    DoneKid(f, f.par[c], g, g.par[t], f.idx[c]);
    SpineData(f, s, f.par[c], g, r, g.par[t]);
    KidsDone(f, f.par[c], g, g.par[t]);
    NodeAt(f, f.par[c]);
    NodeAt(g, g.par[t]);
  }

  lemma SpineData(f: Forest, s: Id, c: Id, g: Forest, r: Id, t: Id)
    requires WF(f) && WF(g) && Spine(f, s, c, g, r, t)
    ensures c in f.par && t in g.par && c in f.data && t in g.data && f.data[c] == g.data[t]
  {
  }

  lemma NoNext(f: Forest, c: Id)
    requires WF(f) && c in f.par && NextSibling(f, c) == TOP
    ensures c in f.idx && f.par[c] in f.kids && f.idx[c] + 1 == |f.kids[f.par[c]]|
  {
    NodeAt(f, c);
    if f.idx[c] + 1 < |f.kids[f.par[c]]| {
      KidFacts(f, f.par[c], f.idx[c] + 1);
    }
  }

  /** With all its children a node is done. */
  lemma KidsDone(f: Forest, p: Id, g: Forest, q: Id)
    requires WF(f) && WF(g) && p in f.par && q in g.par && p in f.kids && q in g.kids
    requires f.data[p] == g.data[q] && |f.kids[p]| == |g.kids[q]|
    requires forall j :: 0 <= j < |f.kids[p]| ==> SameKid(f, p, g, q, j)
    ensures Done(f, p, g, q)
  {
    forall j | 0 <= j < |f.kids[p]|
      ensures TreeOf(f, p).kids[j] == TreeOf(g, q).kids[j]
    {
      assert SameKid(f, p, g, q, j);
    }
    assert TreeOf(f, p).kids == TreeOf(g, q).kids;
  }

  /** A node without children is done at once. */
  lemma LeafDone(f: Forest, s: Id, c: Id, g: Forest, r: Id, t: Id)
    requires WF(f) && WF(g) && Spine(f, s, c, g, r, t) && c in f.kids && t in g.kids && f.kids[c] == g.kids[t] == []
    ensures Done(f, c, g, t)
  {
    hide WF;
    SpineData(f, s, c, g, r, t);
    KidsDone(f, c, g, t);
  }

  /** Where the walk ends, the copy is whole. */
  lemma WalkEnd(f: Forest, s: Id, g: Forest, r: Id, t: Id)
    requires WF(f) && WF(g) && Spine(f, s, s, g, r, t) && Done(f, s, g, t)
    ensures t == r && s in f.par && r in g.par && TreeOf(g, r) == TreeOf(f, s)
  {
  }

  // ----- the source while the copy grows in the same forest ---------------

  ghost predicate FollowsAt(f0: Forest, f: Forest, m: Id)
    requires WF(f0) && WF(f)
  {
    && m in f0.par && m in f.par && f.kids[m] == f0.kids[m] && f.data[m] == f0.data[m] && f.par[m] == f0.par[m]
    && NextSibling(f, m) == NextSibling(f0, m)
  }

  /** For the walk below s the forest f is still what f0 was. */
  ghost predicate Follows(f0: Forest, f: Forest, s: Id)
    requires WF(f0) && WF(f)
  {
    forall m {:trigger FollowsAt(f0, f, m)} | m in Subtree(f0, s) :: FollowsAt(f0, f, m)
  }

  lemma FollowsItself(f: Forest, s: Id)
    requires WF(f) && s in f.par
    ensures Follows(f, f, s)
  {
    SubtreeClosed(f, s);
  }

  /** A node below r, apart from the subtree at s, leaves the walk alone. */
  lemma FollowsAppended(f0: Forest, f: Forest, s: Id, r: Id, w: Id, n: Id, x: HtmlNode)
    requires WF(f0) && WF(f) && s in f0.par && Follows(f0, f, s) && r in f.par
    requires Subtree(f0, s) !! Subtree(f, r) && w in f.par && w in Subtree(f, r) && n !in f.par && n != TOP
    ensures WF(Appended(f, w, n, x)) && Follows(f0, Appended(f, w, n, x), s)
    ensures Subtree(f0, s) !! Subtree(Appended(f, w, n, x), r)
  {
    hide Appended, Subtree, NextSibling;
    var g := Appended(f, w, n, x);
    AppendedFacts(f, w, n, x);
    SubtreeAppended(f, w, n, x, r);
    forall m | m in Subtree(f0, s)
      ensures FollowsAt(f0, g, m) && m != n
    {
      assert FollowsAt(f0, f, m);
      SubtreeCloses(f0, s, m);
      SubtreeCloses(f, r, m);
      NextAppended(f, w, n, x, m);
    }
  }

  lemma NextAppended(f: Forest, w: Id, n: Id, x: HtmlNode, m: Id)
    requires WF(f) && w in f.kids && n !in f.par && n != TOP && m in f.par && f.par[m] != w
    ensures WF(Appended(f, w, n, x)) && m in Appended(f, w, n, x).par
    ensures NextSibling(Appended(f, w, n, x), m) == NextSibling(f, m)
  {
    hide Appended;
    AppendedFacts(f, w, n, x);
    NodeAt(f, m);
    NodeAt(Appended(f, w, n, x), m);
  }

  // ----- the rest of the forest -------------------------------------------

  /** Outside the subtrees at n and t all is the same but for the one child. */
  lemma RestFacts(f: Forest, n: Id, g: Forest, t: Id, m: Id)
    requires SameRest(f, n, g, t) && m in f.par && m !in Subtree(f, n)
    ensures m in g.par && m !in Subtree(g, t) && g.par[m] == f.par[m] && g.data[m] == f.data[m]
    ensures m in f.kids && m in g.kids && m in f.rank && m in g.rank && f.par[m] in f.rank
    ensures m != f.par[n] ==> g.kids[m] == f.kids[m]
    ensures f.par[m] !in Subtree(f, n) && f.rank[f.par[m]] < f.rank[m]
  {
    hide Subtree, Erased, Without;
    ErasedIs(f, n);
    ErasedIs(g, t);
    NodeAt(f, m);
    SubtreeCloses(f, n, m);
    var a, b := Erased(f, n), Erased(g, t);
    assert m in a.par && m in b.par;
    assert a.par[m] == f.par[m] && b.par[m] == g.par[m];
    assert m in a.kids && m in b.kids && a.kids[m] == b.kids[m];
    assert a.data[m] == b.data[m];
  }

  /** Two subtrees of which neither holds the other's root are apart. */
  lemma {:induction false} SubtreesApart(f: Forest, n: Id, s: Id, m: Id)
    requires WF(f) && n in f.par && s in f.par && n !in Subtree(f, s) && s !in Subtree(f, n)
    requires m in f.par && m in Subtree(f, s)
    ensures m !in Subtree(f, n)
    decreases f.rank[m]
  {
    hide Subtree;
    SubtreeCloses(f, s, m);
    SubtreeCloses(f, n, m);
    NodeAt(f, m);
    if m != s {
      if f.par[m] in f.par {
        SubtreesApart(f, n, s, f.par[m]);
      } else {
        SubtreeCloses(f, n, n);
      }
    }
  }

  lemma {:induction false} UnderRest(f: Forest, n: Id, g: Forest, t: Id, s: Id, m: Id)
    requires SameRest(f, n, g, t) && s in f.par && s in g.par && m in f.par && m in g.par && m !in Subtree(f, n)
    ensures m in Subtree(g, s) <==> m in Subtree(f, s)
    decreases f.rank[m]
  {
    hide Subtree, Erased, Without;
    RestFacts(f, n, g, t, m);
    SubtreeCloses(f, s, m);
    SubtreeCloses(g, s, m);
    NodeAt(f, m);
    if f.par[m] in f.par {
      RestFacts(f, n, g, t, f.par[m]);
      UnderRest(f, n, g, t, s, f.par[m]);
    } else {
      SubtreeCloses(f, s, s);
      SubtreeCloses(g, s, s);
    }
  }

  /** A tree beside the two subtrees stays. */
  lemma RestTree(f: Forest, n: Id, g: Forest, t: Id, s: Id)
    requires SameRest(f, n, g, t) && s in f.par && s !in Subtree(f, n) && n !in Subtree(f, s)
    ensures s in g.par && TreeOf(g, s) == TreeOf(f, s) && t !in Subtree(g, s) && s !in Subtree(g, t)
  {
    hide Subtree, Erased, Without, SameRest;
    RestParts(f, n, g, t);
    RestFacts(f, n, g, t, s);
    SubtreeClosed(f, s);
    SubtreeCloses(f, s, n);
    forall m | m in Subtree(f, s)
      ensures m in f.par && m in g.par && f.kids[m] == g.kids[m] && f.data[m] == g.data[m]
    {
      SubtreesApart(f, n, s, m);
      RestFacts(f, n, g, t, m);
    }
    SameTree(f, g, Subtree(f, s), s);
    SubtreeCloses(g, s, t);
    InOwn(g, t);
    if f.par[n] in f.par {
      SubtreeCloses(f, n, n);
      RestFacts(f, n, g, t, f.par[n]);
      UnderRest(f, n, g, t, s, f.par[n]);
    } else {
      SubtreeCloses(g, s, s);
      TopOutside(f, n, g, s);
    }
  }

  lemma TopOutside(f: Forest, n: Id, g: Forest, s: Id)
    requires WF(f) && WF(g) && n in f.par && f.par[n] !in f.par && s in g.par
    ensures f.par[n] == TOP && TOP !in Subtree(g, s)
  {
    NodeAt(f, n);
    assert f.par[n] in f.kids;
    SubtreeCloses(g, s, s);
  }

  lemma RestParts(f: Forest, n: Id, g: Forest, t: Id)
    requires SameRest(f, n, g, t)
    ensures WF(f) && WF(g) && n in f.par && t in g.par && n in f.idx && t in g.idx
    ensures g.par[t] == f.par[n] && g.idx[t] == f.idx[n]
  {
  }

  lemma RestItself(f: Forest, n: Id)
    requires WF(f) && n in f.par
    ensures SameRest(f, n, f, n)
  {
    hide Subtree, Erased;
    ErasedIs(f, n);
    NodeAt(f, n);
  }

  lemma RestChain(f: Forest, n: Id, g: Forest, t: Id, h: Forest, r: Id)
    requires SameRest(f, n, g, t) && SameRest(g, t, h, r)
    ensures SameRest(f, n, h, r)
  {
    hide Erased, Alike;
    AlikeChain(Erased(f, n), Erased(g, t), Erased(h, r));
  }

  lemma AlikeChain(a: Forest, b: Forest, c: Forest)
    requires Alike(a, b) && Alike(b, c)
    ensures Alike(a, c)
  {
    forall m | m in a.par
      ensures m in a.idx && m in c.idx && a.idx[m] == c.idx[m]
    {
      assert a.idx[m] == b.idx[m] && b.idx[m] == c.idx[m];
    }
  }

  // ----- the top level ----------------------------------------------------

  lemma TopKids(f: Forest, i: nat)
    requires WF(f) && TOP in f.kids && i < |f.kids[TOP]|
    ensures var n := f.kids[TOP][i];
            n in f.par && n in f.idx && f.par[n] == TOP && f.idx[n] == i && n != TOP
  {
    KidFacts(f, TOP, i);
  }

  /** The i-th tree of the top level has been replaced: the others stay. */
  lemma TopRest(f: Forest, n: Id, g: Forest, t: Id)
    requires SameRest(f, n, g, t) && f.par[n] == TOP
    ensures TOP in f.kids && TOP in g.kids && |g.kids[TOP]| == |f.kids[TOP]| && f.idx[n] < |f.kids[TOP]|
    ensures g.kids[TOP][f.idx[n]] == t
    ensures forall j {:trigger g.kids[TOP][j]} ::
              0 <= j < |f.kids[TOP]| && j != f.idx[n] ==> g.kids[TOP][j] == f.kids[TOP][j]
  {
    hide Subtree, Erased;
    ErasedIs(f, n);
    ErasedIs(g, t);
    NodeAt(f, n);
    NodeAt(g, t);
    var k, a, b := f.idx[n], f.kids[TOP], g.kids[TOP];
    assert Erased(f, n).kids[TOP] == Without(a, k) && Erased(g, t).kids[TOP] == Without(b, k);
    forall j | 0 <= j < |a| && j != k
      ensures b[j] == a[j]
    {
      assert Without(a, k)[if j < k then j else j - 1] == Without(b, k)[if j < k then j else j - 1];
    }
  }

  /** The trees of the top level are beside each other. */
  lemma TopsBeside(f: Forest, i: nat, j: nat)
    requires WF(f) && TOP in f.kids && i < |f.kids[TOP]| && j < |f.kids[TOP]| && i != j
    ensures var n, s := f.kids[TOP][i], f.kids[TOP][j];
            n in f.par && s in f.par && s !in Subtree(f, n) && n !in Subtree(f, s)
  {
    hide Subtree;
    TopKids(f, i);
    TopKids(f, j);
    var n, s := f.kids[TOP][i], f.kids[TOP][j];
    SubtreeCloses(f, n, s);
    SubtreeCloses(f, s, n);
    SubtreeCloses(f, n, n);
    SubtreeCloses(f, s, s);
  }

  /** One more tree of the top level is the same. */
  lemma TopsNext(f: Forest, n: Id, g: Forest, t: Id, o: Forest, i: nat)
    requires SameRest(f, n, g, t) && f.par[n] == TOP && f.idx[n] == i && WF(o) && TOP in o.kids
    requires forall j :: 0 < j < i ==> SameKid(o, TOP, f, TOP, j)
    requires i < |o.kids[TOP]| && o.kids[TOP][i] in o.par && TreeOf(g, t) == TreeOf(o, o.kids[TOP][i])
    ensures forall j :: 0 < j < i + 1 ==> SameKid(o, TOP, g, TOP, j)
  {
    hide SameRest, Subtree, TreeOf, WF;
    RestParts(f, n, g, t);
    TopRest(f, n, g, t);
    forall j | 0 < j < i + 1
      ensures SameKid(o, TOP, g, TOP, j)
    {
      TopKids(g, j);
      if j < i {
        assert SameKid(o, TOP, f, TOP, j);
        PlaceIs(f, n);
        TopsBeside(f, i, j);
        RestTree(f, n, g, t, f.kids[TOP][j]);
      }
    }
  }

  lemma PlaceIs(f: Forest, n: Id)
    requires WF(f) && n in f.par
    ensures n in f.idx && f.par[n] in f.kids && f.idx[n] < |f.kids[f.par[n]]| && f.kids[f.par[n]][f.idx[n]] == n
  {
    NodeAt(f, n);
  }

  /** Passing over the children of a tree leads to the next one. */
  lemma TopPassed(f: Forest, i: nat)
    requires WF(f) && TOP in f.kids && i + 1 < |f.kids[TOP]|
    ensures f.kids[TOP][i] in f.par && Passed(f, f.kids[TOP][i]) == f.kids[TOP][i+1]
  {
    TopKids(f, i);
  }

  /** A leaf in front of the first tree. */
  lemma TopInserted(f: Forest, n: Id, x: HtmlNode)
    requires WF(f) && TOP in f.kids && |f.kids[TOP]| >= 2 && n !in f.par && n != TOP
    ensures var g := Inserted(f, TOP, 1, n, x);
            && WF(g) && TOP in g.kids && |g.kids[TOP]| == |f.kids[TOP]| + 1 && g.kids[TOP][1] == n
            && n in g.par && n in g.idx && g.par[n] == TOP && g.idx[n] == 1
  {
    InsertedWF(f, TOP, 1, n, x);
    SpliceAt(f.kids[TOP], 1, [n], 1);
    TopKids(Inserted(f, TOP, 1, n, x), 1);
  }
}
