/** Taking a subtree out of a forest. */
module ForestErase {
  import opened HtmlNodes
  import opened Forests
  import opened Seqs

  /** m is below n: one of its ancestors is n. */
  ghost predicate IsUnder(f: Forest, m: Id, n: Id)
    requires WF(f) && m in f.par
    decreases f.rank[m]
  {
    assert Placed(f, m);
    f.par[m] == n || (f.par[m] in f.par && IsUnder(f, f.par[m], n))
  }

  /** By which child of n one gets from n down to m. */
  ghost function Branch(f: Forest, m: Id, n: Id): nat
    requires WF(f) && m in f.par && IsUnder(f, m, n)
    decreases f.rank[m]
  {
    assert Placed(f, m);
    if f.par[m] == n then f.idx[m] else Branch(f, f.par[m], n)
  }

  /** What is below n. */
  ghost function Below(f: Forest, n: Id): set<Id>
    requires WF(f)
  {
    set m | m in f.par && IsUnder(f, m, n)
  }

  /** What is below n, by its first i children. */
  ghost function BelowPart(f: Forest, n: Id, i: nat): set<Id>
    requires WF(f)
  {
    set m | m in f.par && IsUnder(f, m, n) && Branch(f, m, n) < i
  }

  lemma {:induction false} UnderRank(f: Forest, m: Id, n: Id)
    requires WF(f) && m in f.par && n in f.rank && IsUnder(f, m, n)
    ensures f.rank[n] < f.rank[m]
    decreases f.rank[m]
  {
    assert Placed(f, m);
    if f.par[m] != n {
      UnderRank(f, f.par[m], n);
    }
  }

  lemma {:induction false} BranchBound(f: Forest, m: Id, n: Id)
    requires WF(f) && m in f.par && n in f.kids && IsUnder(f, m, n)
    ensures Branch(f, m, n) < |f.kids[n]|
    decreases f.rank[m]
  {
    assert Placed(f, m);
    if f.par[m] != n {
      BranchBound(f, f.par[m], n);
    }
  }

  /** One gets to m by the i-th child exactly when m is that child or below
      it. */
  lemma {:induction false} BranchIs(f: Forest, m: Id, n: Id, i: nat)
    requires WF(f) && m in f.par && n in f.kids && i < |f.kids[n]|
    ensures var c := f.kids[n][i];
            IsUnder(f, m, n) && Branch(f, m, n) == i <==> m == c || IsUnder(f, m, c)
    decreases f.rank[m]
  {
    var c := f.kids[n][i];
    assert Placed(f, m);
    KidFacts(f, n, i);
    if f.par[m] == n {
      if f.idx[m] != i && IsUnder(f, m, c) {
        UnderRank(f, n, c);
        assert false;
      }
    } else if f.par[m] in f.par {
      BranchIs(f, f.par[m], n, i);
    }
  }

  lemma BelowNone(f: Forest, n: Id)
    requires WF(f)
    ensures BelowPart(f, n, 0) == {}
  {
  }

  lemma BelowAll(f: Forest, n: Id)
    requires WF(f) && n in f.kids
    ensures BelowPart(f, n, |f.kids[n]|) == Below(f, n)
  {
    forall m | m in f.par && IsUnder(f, m, n)
      ensures Branch(f, m, n) < |f.kids[n]|
    {
      BranchBound(f, m, n);
    }
  }

  lemma BelowNext(f: Forest, n: Id, i: nat)
    requires WF(f) && n in f.kids && i < |f.kids[n]|
    ensures var c := f.kids[n][i];
            && c in f.par && c !in BelowPart(f, n, i) && c !in Below(f, c)
            && BelowPart(f, n, i + 1) == BelowPart(f, n, i) + Below(f, c) + {c}
            && BelowPart(f, n, i) !! Below(f, c)
  {
    var c := f.kids[n][i];
    KidFacts(f, n, i);
    if IsUnder(f, c, c) {
      UnderRank(f, c, c);
    }
    forall m | m in f.par
      ensures m in BelowPart(f, n, i + 1) <==> m in BelowPart(f, n, i) || m in Below(f, c) || m == c
      ensures !(m in BelowPart(f, n, i) && (m in Below(f, c) || m == c))
    {
      BranchIs(f, m, n, i);
    }
  }

  // ----- the forest that is left ------------------------------------------

  function Without(ks: seq<Id>, k: nat): (r: seq<Id>)
    requires k < |ks|
    ensures |r| == |ks| - 1
    ensures forall i :: 0 <= i < |r| ==> r[i] == if i < k then ks[i] else ks[i+1]
  {
    ks[..k] + ks[k+1..]
  }

  /** n and everything below it. */
  ghost function Subtree(f: Forest, n: Id): set<Id>
    requires WF(f)
  {
    Below(f, n) + {n}
  }

  /** f without the subtree at n. */
  ghost function Erased(f: Forest, n: Id): Forest
    requires WF(f) && n in f.par
  {
    assert Placed(f, n);
    var p, k, gone := f.par[n], f.idx[n], Subtree(f, n);
    f.(kids := map m | m in f.kids && m !in gone :: if m == p then Without(f.kids[p], k) else f.kids[m],
       par := map m | m in f.par && m !in gone :: f.par[m],
       idx := map m | m in f.par && m !in gone :: if f.par[m] == p && f.idx[m] > k then f.idx[m] - 1 else f.idx[m],
       data := map m | m in f.data && m !in gone :: f.data[m],
       rank := map m | m in f.rank && m !in gone :: f.rank[m])
  }

  /** A subtree holds a node exactly when the node is its root or it holds the
      node's parent. */
  lemma SubtreeCloses(f: Forest, n: Id, m: Id)
    requires WF(f) && n in f.par && m in f.par
    ensures m in Subtree(f, n) <==> m == n || f.par[m] in Subtree(f, n)
    ensures TOP !in Subtree(f, n) && f.par[n] !in Subtree(f, n)
  {
    assert Placed(f, m) && Placed(f, n);
    if f.par[n] in Below(f, n) {
      UnderRank(f, f.par[n], n);
    }
  }

  lemma SubtreeClosed(f: Forest, m: Id)
    requires WF(f) && m in f.par
    ensures ClosedSet(f, Subtree(f, m)) && m in Subtree(f, m) && Subtree(f, m) <= f.par.Keys
  {
    forall a, i | a in Subtree(f, m) && a in f.kids && 0 <= i < |f.kids[a]|
      ensures f.kids[a][i] in Subtree(f, m)
    {
      KidFacts(f, a, i);
      SubtreeCloses(f, m, f.kids[a][i]);
    }
  }

  /** What Erased comes to, entry by entry. */
  ghost predicate IsErased(f: Forest, g: Forest, p: Id, k: nat, gone: set<Id>) {
    && Domains(f) && Domains(g) && p in f.kids && p in g.kids && k < |f.kids[p]|
    && g.kids.Keys == f.kids.Keys - gone && g.par.Keys == f.par.Keys - gone
    && (forall m {:trigger g.kids[m]} | m in g.kids :: g.kids[m] == if m == p then Without(f.kids[p], k) else f.kids[m])
    && (forall m {:trigger g.par[m]} | m in g.par ::
         && g.par[m] == f.par[m]
         && g.idx[m] == if f.par[m] == p && f.idx[m] > k then f.idx[m] - 1 else f.idx[m])
    && (forall m {:trigger g.rank[m]} | m in g.kids :: g.rank[m] == f.rank[m])
    && (forall m {:trigger g.data[m]} | m in g.par :: g.data[m] == f.data[m])
  }

  lemma ErasedIs(f: Forest, n: Id)
    requires WF(f) && n in f.par
    ensures IsErased(f, Erased(f, n), f.par[n], f.idx[n], Subtree(f, n))
  {
    hide Below;
    assert Placed(f, n);
    SubtreeCloses(f, n, n);
    var g := Erased(f, n);
    assert g.kids.Keys == f.kids.Keys - Subtree(f, n);
    assert g.par.Keys == f.par.Keys - Subtree(f, n);
    assert Domains(g);
  }

  lemma ErasedPlaced(f: Forest, g: Forest, n: Id, p: Id, k: nat, gone: set<Id>, m: Id)
    requires IsErased(f, g, p, k, gone) && n in f.par && Placed(f, n) && f.par[n] == p && f.idx[n] == k
    requires n in gone && m in g.par && Placed(f, m) && f.par[m] !in gone
    ensures Placed(g, m)
  {
    assert g.kids[g.par[m]] == if f.par[m] == p then Without(f.kids[p], k) else f.kids[f.par[m]];
  }

  lemma ErasedListed(f: Forest, g: Forest, n: Id, p: Id, k: nat, gone: set<Id>, q: Id, i: nat)
    requires IsErased(f, g, p, k, gone) && n in f.par && Placed(f, n) && f.par[n] == p && f.idx[n] == k
    requires q in g.kids && i < |g.kids[q]|
    requires var j := if q == p && i >= k then i + 1 else i;
             j < |f.kids[q]| && Listed(f, q, j) && f.kids[q][j] !in gone
    ensures Listed(g, q, i)
  {
    assert g.kids[q] == if q == p then Without(f.kids[p], k) else f.kids[q];
  }

  lemma ErasedWF(f: Forest, n: Id)
    requires WF(f) && n in f.par
    ensures WF(Erased(f, n))
  {
    hide Erased, Subtree, Without, Placed, Listed;
    var g, p, k, gone := Erased(f, n), f.par[n], f.idx[n], Subtree(f, n);
    ErasedIs(f, n);
    SubtreeCloses(f, n, n);
    assert Placed(f, n);
    forall m | m in g.par
      ensures Placed(g, m)
    {
      assert Placed(f, m);
      SubtreeCloses(f, n, m);
      ErasedPlaced(f, g, n, p, k, gone, m);
    }
    forall q, i | q in g.kids && 0 <= i < |g.kids[q]|
      ensures Listed(g, q, i)
    {
      ErasedKid(f, g, n, q, i);
    }
  }

  lemma ErasedKid(f: Forest, g: Forest, n: Id, q: Id, i: nat)
    requires WF(f) && n in f.par && IsErased(f, g, f.par[n], f.idx[n], Subtree(f, n))
    requires q in g.kids && i < |g.kids[q]|
    ensures Listed(g, q, i)
  {
    hide Subtree, WF;
    var p, k := f.par[n], f.idx[n];
    assert g.kids[q] == if q == p then Without(f.kids[p], k) else f.kids[q];
    var j := if q == p && i >= k then i + 1 else i;
    KidAt(f, q, j);
    KidAt(f, p, k);
    SubtreeCloses(f, n, f.kids[q][j]);
    NodeAt(f, n);
    ErasedListed(f, g, n, p, k, Subtree(f, n), q, i);
  }

  lemma KidAt(f: Forest, q: Id, j: nat)
    requires WF(f) && q in f.kids && j < |f.kids[q]|
    ensures Domains(f) && Listed(f, q, j)
  {
    assert Listed(f, q, j);
  }

  lemma NodeAt(f: Forest, n: Id)
    requires WF(f) && n in f.par
    ensures Domains(f) && Placed(f, n)
  {
    assert Placed(f, n);
  }
}
