/** What erase leaves of the document. */
module EraseOrder {
  import opened HtmlNodes
  import opened Forests
  import opened ForestErase
  import opened ForestOrder
  import opened Seqs

  /** s without what is in gone. */
  ghost function Sieved(s: seq<Id>, gone: set<Id>): seq<Id> {
    if s == [] then [] else (if s[0] in gone then [] else [s[0]]) + Sieved(s[1..], gone)
  }

  lemma {:induction false} SievedConcat(a: seq<Id>, b: seq<Id>, gone: set<Id>)
    ensures Sieved(a + b, gone) == Sieved(a, gone) + Sieved(b, gone)
    decreases |a|
  {
    if a == [] {
      assert a + b == b;
    } else {
      assert (a + b)[1..] == a[1..] + b;
      SievedConcat(a[1..], b, gone);
    }
  }

  lemma {:induction false} SievedAll(s: seq<Id>, gone: set<Id>)
    requires forall m | m in s :: m in gone
    ensures Sieved(s, gone) == []
    decreases |s|
  {
    if s != [] {
      SievedAll(s[1..], gone);
    }
  }

  lemma {:induction false} SievedNone(s: seq<Id>, gone: set<Id>)
    requires forall m | m in s :: m !in gone
    ensures Sieved(s, gone) == s
    decreases |s|
  {
    if s != [] {
      SievedNone(s[1..], gone);
    }
  }

  lemma SievedNode(c: Id, below: seq<Id>, rest: seq<Id>, gone: set<Id>)
    ensures Sieved([c] + below + rest, gone)
            == (if c in gone then [] else [c]) + Sieved(below, gone) + Sieved(rest, gone)
  {
    SievedConcat([c] + below, rest, gone);
    SievedConcat([c], below, gone);
    assert [c][1..] == [];
  }

  /** The children that stay: where the i-th one of q stands now. */
  lemma KidStays(f: Forest, g: Forest, n: Id, q: Id, i: nat)
    requires WF(f) && n in f.par && IsErased(f, g, f.par[n], f.idx[n], Subtree(f, n))
    requires q in g.kids && q in f.kids && i < |f.kids[q]|
    ensures var c, p, k := f.kids[q][i], f.par[n], f.idx[n];
            && (c in Subtree(f, n) <==> q == p && i == k)
            && (c in Subtree(f, n) ==> c == n)
            && (c !in Subtree(f, n) ==>
                  c in g.kids && var j := if q == p && i > k then i - 1 else i; j < |g.kids[q]| && g.kids[q][j] == c)
  {
    hide Subtree;
    KidFacts(f, q, i);
    SubtreeCloses(f, n, f.kids[q][i]);
    SubtreeClosed(f, n);
    assert Placed(f, n);
    assert g.kids[q] == if q == f.par[n] then Without(f.kids[q], f.idx[n]) else f.kids[q];
  }

  lemma {:induction false} SievedFrom(f: Forest, g: Forest, n: Id, q: Id, i: nat)
    requires WF(f) && WF(g) && n in f.par && IsErased(f, g, f.par[n], f.idx[n], Subtree(f, n))
    requires q in g.kids && q in f.kids && q in f.rank && i <= |f.kids[q]|
    ensures var j := if q == f.par[n] && i > f.idx[n] then i - 1 else i;
            j <= |g.kids[q]| && PreFrom(g, q, j) == Sieved(PreFrom(f, q, i), Subtree(f, n))
    decreases f.bound - f.rank[q], |f.kids[q]| - i
  {
    hide PreFrom, Subtree, WF, Without, Sieved;
    var gone := Subtree(f, n);
    if i == |f.kids[q]| {
      LastOne(f, g, n, q);
    } else {
      var c := f.kids[q][i];
      PreStep(f, q, i);
      KidStays(f, g, n, q, i);
      SievedFrom(f, g, n, q, i + 1);
      SievedNode(c, PreFrom(f, c, 0), PreFrom(f, q, i + 1), gone);
      if c in gone {
        BelowIn(f, n);
        SievedAll(PreFrom(f, n, 0), gone);
        assert [] + [] + Sieved(PreFrom(f, q, i + 1), gone) == Sieved(PreFrom(f, q, i + 1), gone);
      } else {
        var j := if q == f.par[n] && i > f.idx[n] then i - 1 else i;
        SievedFrom(f, g, n, c, 0);
        PreStep(g, q, j);
      }
    }
  }

  lemma LastOne(f: Forest, g: Forest, n: Id, q: Id)
    requires WF(f) && WF(g) && n in f.par && IsErased(f, g, f.par[n], f.idx[n], Subtree(f, n))
    requires q in g.kids && q in f.kids
    ensures var i := |f.kids[q]|;
            var j := if q == f.par[n] && i > f.idx[n] then i - 1 else i;
            j == |g.kids[q]| && PreFrom(g, q, j) == [] && Sieved(PreFrom(f, q, i), Subtree(f, n)) == []
  {
    hide Subtree;
    assert g.kids[q] == if q == f.par[n] then Without(f.kids[q], f.idx[n]) else f.kids[q];
    PreEnd(f, q);
    PreEnd(g, q);
  }

  /** What lies below n in the document is below n in the forest. */
  lemma BelowIn(f: Forest, n: Id)
    requires WF(f) && n in f.par && n in f.kids
    ensures forall m | m in PreFrom(f, n, 0) :: m in Subtree(f, n)
  {
    forall m | m in PreFrom(f, n, 0)
      ensures m in Subtree(f, n)
    {
      PreFromBranch(f, n, 0, m);
    }
  }

  /** And conversely. */
  lemma {:induction false} UnderIn(f: Forest, m: Id, n: Id)
    requires WF(f) && m in f.par && n in f.kids && n in f.rank && IsUnder(f, m, n)
    ensures m in PreFrom(f, n, 0)
    decreases f.bound - f.rank[n]
  {
    hide PreFrom;
    var i := Branch(f, m, n);
    BranchBound(f, m, n);
    KidFacts(f, n, i);
    BranchIs(f, m, n, i);
    PreStep(f, n, i);
    PreSplit(f, n, i);
    var c := f.kids[n][i];
    if m != c {
      UnderIn(f, m, c);
    }
  }

  /** Document order after erase is what it was without the erased nodes, and
      these stood in one piece. */
  lemma ErasedDocument(f: Forest, n: Id)
    requires WF(f) && n in f.par
    ensures WF(Erased(f, n))
    ensures Document(Erased(f, n)) == Sieved(Document(f), Subtree(f, n))
    ensures Document(Erased(f, n)) == Before(f, n) + After(f, n)
  {
    hide PreFrom, Subtree, WF, Erased, Sieved, Before, After;
    var g, gone := Erased(f, n), Subtree(f, n);
    ErasedWF(f, n);
    ErasedIs(f, n);
    SubtreeCloses(f, n, n);
    TopStays(f, g, n);
    SievedFrom(f, g, n, TOP, 0);
    SievedDocument(f, n);
  }

  lemma SievedDocument(f: Forest, n: Id)
    requires WF(f) && n in f.par
    ensures Sieved(Document(f), Subtree(f, n)) == Before(f, n) + After(f, n)
  {
    hide PreFrom, Subtree, WF, Sieved, Before, After, Document;
    DocumentSplit(f, n);
    Apart(f, n);
    SievedAround(Before(f, n), n, PreFrom(f, n, 0), After(f, n), Subtree(f, n));
  }

  lemma SievedAround(b: seq<Id>, n: Id, y: seq<Id>, a: seq<Id>, gone: set<Id>)
    requires (forall m | m in [n] + y :: m in gone) && forall m | m in b || m in a :: m !in gone
    ensures Sieved(b + [n] + (y + a), gone) == b + a
  {
    hide Sieved;
    assert b + [n] + (y + a) == b + (([n] + y) + a);
    SievedConcat(b, ([n] + y) + a, gone);
    SievedConcat([n] + y, a, gone);
    SievedNone(b, gone);
    SievedNone(a, gone);
    SievedAll([n] + y, gone);
    assert b + ([] + a) == b + a;
  }

  lemma TopStays(f: Forest, g: Forest, n: Id)
    requires WF(f) && n in f.par && IsErased(f, g, f.par[n], f.idx[n], Subtree(f, n)) && TOP !in Subtree(f, n)
    ensures TOP in f.kids && TOP in g.kids && TOP in f.rank
  {
    hide Subtree;
  }

  /** The subtree at n is what stands between before and after. */
  lemma Apart(f: Forest, n: Id)
    requires WF(f) && n in f.par
    ensures n in f.kids
    ensures forall m | m in [n] + PreFrom(f, n, 0) :: m in Subtree(f, n)
    ensures forall m | m in Before(f, n) || m in After(f, n) :: m in f.par && m !in Subtree(f, n)
  {
    hide PreFrom, WF, Before, After;
    DocumentSplit(f, n);
    DocumentOnce(f);
    BelowIn(f, n);
    var b, x, a := Before(f, n), [n] + PreFrom(f, n, 0), After(f, n);
    assert Document(f) == b + x + a;
    ThreeApart(b, x, a);
    forall m | m in Subtree(f, n)
      ensures m in x
    {
      if m != n {
        NodeAt(f, n);
        UnderIn(f, m, n);
      }
    }
    forall m | m in b || m in a
      ensures m in f.par && m !in Subtree(f, n)
    {
      assert m in Document(f);
    }
  }

  lemma ThreeApart(b: seq<Id>, x: seq<Id>, a: seq<Id>)
    requires NoDup(b + x + a)
    ensures forall m | m in b || m in a :: m !in x
  {
    var s := b + x + a;
    forall i, j | 0 <= i < |b| && 0 <= j < |x|
      ensures b[i] != x[j]
    {
      assert s[i] == b[i] && s[|b|+j] == x[j];
    }
    forall i, j | 0 <= i < |a| && 0 <= j < |x|
      ensures a[i] != x[j]
    {
      assert s[|b|+|x|+i] == a[i] && s[|b|+j] == x[j];
    }
  }
}
