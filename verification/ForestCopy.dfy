/** A subtree that comes to stand in the place of another one. */
module ForestCopy {
  import opened HtmlNodes
  import opened Forests
  import opened ForestErase
  import opened ForestOrder
  import opened DomModel
  import opened Seqs

  // ----- a leaf in the place of a subtree ---------------------------------

  /** The subtree at n gives way to the leaf t. */
  ghost function Replaced(f: Forest, n: Id, t: Id, x: HtmlNode): Forest
    requires WF(f) && n in f.par && t !in f.par && t != TOP
  {
    ReplaceReady(f, n, t);
    Inserted(Erased(f, n), f.par[n], f.idx[n], t, x)
  }

  lemma ReplaceReady(f: Forest, n: Id, t: Id)
    requires WF(f) && n in f.par && t !in f.par
    ensures var g := Erased(f, n);
            && WF(g) && Domains(g) && f.par[n] in g.kids && n in f.idx && f.idx[n] <= |g.kids[f.par[n]]| && t !in g.par
            && g.bound == f.bound
            && f.par[n] in f.kids && f.idx[n] < |f.kids[f.par[n]]|
            && g.kids[f.par[n]] == Without(f.kids[f.par[n]], f.idx[n])
  {
    ErasedWF(f, n);
    ReplacePlace(f, n, t);
  }

  lemma ReplacePlace(f: Forest, n: Id, t: Id)
    requires WF(f) && n in f.par && t !in f.par
    ensures var g := Erased(f, n);
            && Domains(g) && f.par[n] in g.kids && n in f.idx && f.idx[n] <= |g.kids[f.par[n]]| && t !in g.par
            && g.bound == f.bound
            && f.par[n] in f.kids && f.idx[n] < |f.kids[f.par[n]]|
            && g.kids[f.par[n]] == Without(f.kids[f.par[n]], f.idx[n])
  {
    hide Subtree, Without;
    ErasedIs(f, n);
    NodeAt(f, n);
  }

  lemma LeafBelow(f: Forest, n: Id)
    requires WF(f) && n in f.par && f.kids[n] == []
    ensures Subtree(f, n) == {n}
  {
    forall m | m in f.par && IsUnder(f, m, n)
      ensures false
    {
      BranchBound(f, m, n);
    }
  }

  /** The same nodes in the same order with the same data. */
  ghost predicate Alike(a: Forest, b: Forest) {
    && a.kids == b.kids && a.par == b.par && a.data == b.data
    && forall m | m in a.par :: m in a.idx && m in b.idx && a.idx[m] == b.idx[m]
  }

  /** Apart from the subtree at n and the one at t, f and g are alike; and
      these two stand in the same place. */
  ghost predicate SameRest(f: Forest, n: Id, g: Forest, t: Id) {
    && WF(f) && WF(g) && n in f.par && t in g.par && n in f.idx && t in g.idx
    && g.par[t] == f.par[n] && g.idx[t] == f.idx[n]
    && Alike(Erased(f, n), Erased(g, t))
  }

  lemma ErasedInserted(e: Forest, p: Id, k: nat, t: Id, x: HtmlNode)
    requires WF(e) && p in e.kids && k <= |e.kids[p]| && t !in e.par && t != TOP
    ensures var g := Inserted(e, p, k, t, x);
            && WF(g) && t in g.par && t in g.idx && g.par[t] == p && g.idx[t] == k && t in g.kids && g.kids[t] == []
            && t in g.data && g.data[t] == x
            && Subtree(g, t) == {t}
            && Alike(e, Erased(g, t))
  {
    hide Subtree, Erased;
    InsertedWF(e, p, k, t, x);
    var g := Inserted(e, p, k, t, x);
    LeafBelow(g, t);
    ErasedIs(g, t);
    ErasedInsertedParts(e, p, k, t, x, Erased(g, t));
  }

  lemma ErasedInsertedParts(e: Forest, p: Id, k: nat, t: Id, x: HtmlNode, r: Forest)
    requires WF(e) && p in e.kids && k <= |e.kids[p]| && t !in e.par && t != TOP
    requires IsErased(Inserted(e, p, k, t, x), r, p, k, {t})
    ensures Alike(e, r)
  {
    hide Without, WF, IsErased, Inserted, Domains, Splice;
    WFKeys(e);
    InsertedIs(e, p, k, t, x);
    ErasedKeysAre(Inserted(e, p, k, t, x), r, p, k, {t});
    KidsBack(e.kids, r.kids, p, k, t);
    MapBack(e.par, r.par, t, p);
    MapBack(e.data, r.data, t, x);
  }

  lemma KidsBack(kids: map<Id, seq<Id>>, r: map<Id, seq<Id>>, p: Id, k: nat, t: Id)
    requires p in kids && t !in kids && k <= |kids[p]|
    requires var g := kids[p := Splice(kids[p], k, [t])][t := []];
             && r.Keys == g.Keys - {t}
             && forall m | m in r :: r[m] == if m == p then Without(g[p], k) else g[m]
    ensures r == kids
  {
    hide Without, Splice;
    SpliceOut(kids[p], k, t);
    assert forall m | m in kids :: m in r && r[m] == kids[m];
  }

  lemma MapBack<T>(a: map<Id, T>, r: map<Id, T>, t: Id, x: T)
    requires t !in a && r.Keys == a[t := x].Keys - {t} && forall m | m in r :: r[m] == a[t := x][m]
    ensures r == a
  {
    assert forall m | m in a :: m in r && r[m] == a[m];
  }

  lemma WFKeys(e: Forest)
    requires WF(e)
    ensures e.kids.Keys == e.par.Keys + {TOP} && e.data.Keys == e.par.Keys && TOP !in e.par
    ensures Domains(e) && forall m | m in e.par :: m in e.idx
  {
  }

  lemma InsertedIs(e: Forest, p: Id, k: nat, t: Id, x: HtmlNode)
    requires WF(e) && p in e.kids && k <= |e.kids[p]| && t !in e.par && t != TOP
    ensures var g := Inserted(e, p, k, t, x);
            && g.par == e.par[t := p] && g.data == e.data[t := x]
            && g.kids == e.kids[p := Splice(e.kids[p], k, [t])][t := []]
            && p != t
            && (forall m | m in e.par ::
                  m in e.idx && m in g.idx
                  && g.idx[m] == if e.par[m] == p && e.idx[m] >= k then e.idx[m] + 1 else e.idx[m])
  {
  }

  lemma ErasedKeysAre(f: Forest, g: Forest, p: Id, k: nat, gone: set<Id>)
    requires IsErased(f, g, p, k, gone)
    ensures g.kids.Keys == f.kids.Keys - gone && g.par.Keys == f.par.Keys - gone && g.data.Keys == g.par.Keys
    ensures p in f.kids && k < |f.kids[p]|
    ensures forall m | m in g.kids :: g.kids[m] == if m == p then Without(f.kids[p], k) else f.kids[m]
    ensures forall m | m in g.par ::
              && m in f.idx && m in g.idx && m in f.data && g.par[m] == f.par[m] && g.data[m] == f.data[m]
              && g.idx[m] == if f.par[m] == p && f.idx[m] > k then f.idx[m] - 1 else f.idx[m]
  {
  }

  lemma SpliceOut(ks: seq<Id>, k: nat, t: Id)
    requires k <= |ks|
    ensures Without(Splice(ks, k, [t]), k) == ks
  {
    var r := Without(Splice(ks, k, [t]), k);
    forall i | 0 <= i < |ks|
      ensures r[i] == ks[i]
    {
      SpliceAt(ks, k, [t], if i < k then i else i + 1);
    }
  }

  lemma ReplacedIs(f: Forest, n: Id, t: Id, x: HtmlNode)
    requires WF(f) && n in f.par && t !in f.par && t != TOP
    ensures var g := Replaced(f, n, t, x);
            && SameRest(f, n, g, t) && Subtree(g, t) == {t} && t in g.kids && g.kids[t] == []
            && t in g.data && g.data[t] == x
  {
    hide Subtree, Erased, Inserted;
    ReplaceReady(f, n, t);
    ErasedInserted(Erased(f, n), f.par[n], f.idx[n], t, x);
  }

  // ----- a leaf below -----------------------------------------------------

  lemma AppendedFacts(f: Forest, w: Id, n: Id, x: HtmlNode)
    requires WF(f) && w in f.kids && n !in f.par && n != TOP
    ensures Domains(f)
    ensures var g := Appended(f, w, n, x);
            && WF(g) && n in g.par && n in g.kids && g.kids[n] == [] && g.data[n] == x && g.par[n] == w
            && n in g.idx && g.idx[n] == |f.kids[w]|
            && g.par == f.par[n := w] && g.data == f.data[n := x] && g.kids == f.kids[w := f.kids[w] + [n]][n := []]
            && (forall m | m in f.par :: m in f.idx && m in g.idx && g.idx[m] == f.idx[m])
            && n !in f.kids && n != w && g.bound == f.bound + 1 && w in f.rank && n in g.rank
  {
    InsertedWF(f, w, |f.kids[w]|, n, x);
    assert Splice(f.kids[w], |f.kids[w]|, [n]) == f.kids[w] + [n];
    forall m | m in f.par
      ensures Placed(f, m)
    {
    }
  }

  lemma {:induction false} UnderAppended(f: Forest, g: Forest, w: Id, n: Id, t: Id, m: Id)
    requires WF(f) && WF(g) && n !in f.par && n != t && m in f.par
    requires g.par == f.par[n := w]
    ensures IsUnder(g, m, t) <==> IsUnder(f, m, t)
    decreases f.rank[m]
  {
    NodeAt(f, m);
    NodeAt(g, m);
    if f.par[m] in f.par {
      UnderAppended(f, g, w, n, t, f.par[m]);
    } else {
      NodeAt(f, m);
    }
  }

  /** The new node belongs to the subtrees that its parent belongs to. */
  lemma SubtreeAppended(f: Forest, w: Id, n: Id, x: HtmlNode, t: Id)
    requires WF(f) && w in f.par && n !in f.par && n != TOP && t in f.par
    ensures WF(Appended(f, w, n, x))
    ensures Subtree(Appended(f, w, n, x), t) == Subtree(f, t) + if w in Subtree(f, t) then {n} else {}
  {
    hide Appended;
    var g := Appended(f, w, n, x);
    AppendedFacts(f, w, n, x);
    forall m | m in f.par
      ensures m in Subtree(g, t) <==> m in Subtree(f, t)
    {
      UnderAppended(f, g, w, n, t, m);
    }
    UnderAppended(f, g, w, n, t, w);
    NodeAt(g, n);
    assert n in Subtree(g, t) <==> w in Subtree(f, t);
  }

  /** A node below t changes nothing outside the subtree at t. */
  lemma AppendedRest(f: Forest, t: Id, w: Id, n: Id, x: HtmlNode)
    requires WF(f) && t in f.par && w in f.par && w in Subtree(f, t) && n !in f.par && n != TOP
    ensures SameRest(f, t, Appended(f, w, n, x), t)
  {
    hide Appended, Subtree, Erased, Without;
    var g := Appended(f, w, n, x);
    AppendedFacts(f, w, n, x);
    SubtreeAppended(f, w, n, x, t);
    ErasedIs(f, t);
    ErasedIs(g, t);
    NodeAt(f, t);
    SubtreeCloses(f, t, t);
    WFKeys(f);
    AlikeErased(f, g, f.par[t], f.idx[t], Subtree(f, t), w, n, x, Erased(f, t), Erased(g, t));
  }

  lemma AlikeErased(f: Forest, g: Forest, p: Id, k: nat, S: set<Id>, w: Id, n: Id, x: HtmlNode, a: Forest, b: Forest)
    requires f.data.Keys == f.par.Keys && IsErased(f, a, p, k, S) && IsErased(g, b, p, k, S + {n}) && w in f.kids
    requires n !in f.par && n !in f.kids && w in S && p !in S && p != n && w != p
    requires g.par == f.par[n := w] && g.data == f.data[n := x] && g.kids == f.kids[w := f.kids[w] + [n]][n := []]
    requires forall m | m in f.par :: m in f.idx && m in g.idx && g.idx[m] == f.idx[m]
    ensures Alike(a, b)
  {
    hide IsErased, Without, Domains;
    ErasedKeysAre(f, a, p, k, S);
    ErasedKeysAre(g, b, p, k, S + {n});
    KidsRest(f.kids, g.kids, a.kids, b.kids, S, n, p, k);
    MapRest(f.par, g.par, a.par, b.par, S, n);
    MapRest(f.data, g.data, a.data, b.data, S, n);
  }

  lemma KidsRest(f: map<Id, seq<Id>>, g: map<Id, seq<Id>>, a: map<Id, seq<Id>>, b: map<Id, seq<Id>>, S: set<Id>,
      n: Id, p: Id, k: nat)
    requires a.Keys == f.Keys - S && b.Keys == g.Keys - (S + {n}) && g.Keys == f.Keys + {n} && n !in f
    requires p in f && k < |f[p]| && p !in S && forall m | m in f && m !in S :: g[m] == f[m]
    requires forall m | m in a :: a[m] == if m == p then Without(f[p], k) else f[m]
    requires forall m | m in b :: b[m] == if m == p then Without(g[p], k) else g[m]
    ensures a == b
  {
    hide Without;
    assert a.Keys == b.Keys;
    assert forall m | m in a :: a[m] == b[m];
  }

  lemma MapRest<T>(f: map<Id, T>, g: map<Id, T>, a: map<Id, T>, b: map<Id, T>, S: set<Id>, n: Id)
    requires a.Keys == f.Keys - S && b.Keys == g.Keys - (S + {n}) && g.Keys == f.Keys + {n} && n !in f
    requires forall m | m in f && m !in S :: g[m] == f[m]
    requires forall m | m in a :: a[m] == f[m]
    requires forall m | m in b :: b[m] == g[m]
    ensures a == b
  {
    assert a.Keys == b.Keys;
    assert forall m | m in a :: a[m] == b[m];
  }
}
