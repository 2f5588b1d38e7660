/** Where each operation puts the nodes, told by the lists of children. */
module ForestPlaces {
  import opened HtmlNodes
  import opened Forests
  import opened ForestErase
  import opened ForestMove
  import opened ForestCopy
  import opened EraseOrder
  import opened Seqs

  /** All lists but that of p are as they were. */
  ghost predicate OnlyChanges(f: Forest, g: Forest, ps: set<Id>) {
    forall q {:trigger g.kids[q]} {:trigger f.kids[q]} | q in f.kids && q in g.kids && q !in ps ::
      g.kids[q] == f.kids[q]
  }

  /** insert: the new node stands right in front of the k-th child of p, and
      append_child: behind the last one. */
  lemma InsertedThere(f: Forest, p: Id, k: nat, n: Id, x: HtmlNode)
    requires WF(f) && p in f.kids && k <= |f.kids[p]| && n !in f.par && n != TOP
    ensures var g := Inserted(f, p, k, n, x);
            && WF(g) && g.kids.Keys == f.kids.Keys + {n} && g.par.Keys == f.par.Keys + {n}
            && g.kids[p] == f.kids[p][..k] + [n] + f.kids[p][k..] && g.kids[n] == [] && OnlyChanges(f, g, {p, n})
            && g.data == f.data[n := x]
  {
    InsertedWF(f, p, k, n, x);
  }

  /** flatten: n is left without children, and they follow it in its list. */
  lemma FlattenedThere(f: Forest, n: Id)
    requires WF(f) && n in f.par
    ensures var g, p, i := Flattened(f, n), f.par[n], f.idx[n];
            && WF(g) && n in f.kids && p in f.kids && i < |f.kids[p]| && g.kids.Keys == f.kids.Keys
            && g.kids[p] == f.kids[p][..i+1] + f.kids[n] + f.kids[p][i+1..] && g.kids[n] == []
            && OnlyChanges(f, g, {p, n}) && g.data == f.data
  {
    assert Placed(f, n);
    FlattenedWF(f, n);
    NotOwnParent(f, n);
    var ks, i := f.kids[f.par[n]], f.idx[n];
    assert ks[..i+1] + [] + ks[i+1..] == ks;
  }

  lemma NotOwnParent(f: Forest, n: Id)
    requires WF(f) && n in f.par
    ensures f.par[n] != n
  {
    assert Placed(f, n);
  }

  /** erase: every list is without the erased nodes. */
  lemma ErasedThere(f: Forest, n: Id)
    requires WF(f) && n in f.par
    ensures var g, gone := Erased(f, n), Subtree(f, n);
            && WF(g) && g.kids.Keys == f.kids.Keys - gone
            && forall q {:trigger g.kids[q]} | q in g.kids :: g.kids[q] == Sieved(f.kids[q], gone)
  {
    hide Subtree, Erased, WF, Sieved;
    var g := Erased(f, n);
    ErasedWF(f, n);
    ErasedIs(f, n);
    forall q | q in g.kids
      ensures g.kids[q] == Sieved(f.kids[q], Subtree(f, n))
    {
      ErasedList(f, g, n, q);
    }
  }

  lemma ErasedList(f: Forest, g: Forest, n: Id, q: Id)
    requires WF(f) && n in f.par && IsErased(f, g, f.par[n], f.idx[n], Subtree(f, n)) && q in g.kids && q in f.kids
    ensures g.kids[q] == Sieved(f.kids[q], Subtree(f, n))
  {
    hide Subtree, WF, Sieved;
    var ks, p, k := f.kids[q], f.par[n], f.idx[n];
    forall i | 0 <= i < |ks|
      ensures ks[i] in Subtree(f, n) <==> q == p && i == k
    {
      KidStays(f, g, n, q, i);
    }
    if q == p {
      SievedOne(ks, k, Subtree(f, n));
      assert g.kids[q] == Without(ks, k);
    } else {
      SievedNone(ks, Subtree(f, n));
    }
  }

  lemma SievedOne(s: seq<Id>, k: nat, gone: set<Id>)
    requires k < |s| && forall i :: 0 <= i < |s| ==> (s[i] in gone <==> i == k)
    ensures Sieved(s, gone) == Without(s, k)
  {
    hide Sieved;
    assert s == s[..k] + ([s[k]] + s[k+1..]);
    SievedConcat(s[..k], [s[k]] + s[k+1..], gone);
    SievedConcat([s[k]], s[k+1..], gone);
    SievedNone(s[..k], gone);
    SievedAll([s[k]], gone);
    SievedNone(s[k+1..], gone);
  }

  /** replace: the new leaf stands where the old node stood. */
  lemma ReplacedThere(f: Forest, n: Id, t: Id, x: HtmlNode)
    requires WF(f) && n in f.par && t !in f.par && t != TOP
    ensures var g, p := Replaced(f, n, t, x), f.par[n];
            && p in f.kids && p in g.kids && n in f.idx && f.idx[n] < |f.kids[p]| && t in g.kids && t in g.data
            && g.kids[p] == f.kids[p][f.idx[n] := t] && g.kids[t] == [] && g.data[t] == x
  {
    hide Erased;
    ReplaceReady(f, n, t);
    assert Placed(f, n);
    var ks, i := f.kids[f.par[n]], f.idx[n];
    assert Splice(Without(ks, i), i, [t]) == ks[i := t];
    TNotThere(f, t);
  }

  lemma TNotThere(f: Forest, t: Id)
    requires WF(f) && t !in f.par && t != TOP
    ensures t !in f.kids
  {
  }

  /** reparent: the run stands last in the list of q, in its order; all lists
      are otherwise the same without it. */
  lemma MovedThere(f: Forest, p: Id, i: nat, j: nat, q: Id)
    requires WF(f) && Movable(f, p, i, j, q)
    ensures var g, run := Moved(f, p, i, j, q), f.kids[p][i..j];
            var gone := set m | m in run;
            && g.kids.Keys == f.kids.Keys && g.data == f.data
            && g.kids[q] == Sieved(f.kids[q], gone) + run
            && (p != q ==> g.kids[p] == Sieved(f.kids[p], gone))
            && OnlyChanges(f, g, {p, q})
  {
    hide Between, WF, Sieved;
    var ks, run := f.kids[p], f.kids[p][i..j];
    var gone := set m | m in run;
    ListsApart(f, p, q);
    assert ks == ks[..i] + (run + ks[j..]);
    SievedConcat(ks[..i], run + ks[j..], gone);
    SievedConcat(run, ks[j..], gone);
    SievedAll(run, gone);
    SievedNone(ks[..i], gone);
    SievedNone(ks[j..], gone);
    assert [] + ks[j..] == ks[j..];
    if p != q {
      SievedNone(f.kids[q], gone);
    }
  }

  /** No node is in a list twice, or in two lists. */
  lemma ListsApart(f: Forest, p: Id, q: Id)
    requires WF(f) && p in f.kids && q in f.kids
    ensures NoDup(f.kids[p]) && (p != q ==> forall m | m in f.kids[p] :: m !in f.kids[q])
  {
    forall i, j | 0 <= i < j < |f.kids[p]|
      ensures f.kids[p][i] != f.kids[p][j]
    {
      KidFacts(f, p, i);
      KidFacts(f, p, j);
    }
    forall i, j | 0 <= i < |f.kids[p]| && 0 <= j < |f.kids[q]| && p != q
      ensures f.kids[p][i] != f.kids[q][j]
    {
      KidFacts(f, p, i);
      KidFacts(f, q, j);
    }
  }
}
