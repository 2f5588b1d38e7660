/** The ordered forest that a heap of linked nodes stands for. A node is known
    by a number; the nodes of the top level, head and feet among them, are the
    children of TOP, which is no node. */
module Forests {
  import opened HtmlNodes
  import opened DomModel
  import opened Seqs

  type Id = nat

  const TOP: Id := 0

  datatype Forest = Forest(
    kids: map<Id, seq<Id>>,
    // Whose child a node is, and which one.
    par: map<Id, Id>,
    idx: map<Id, nat>,
    data: map<Id, HtmlNode>,
    // Grows from parent to child: there is no cycle.
    rank: map<Id, nat>,
    bound: nat)

  ghost predicate Domains(f: Forest) {
    && TOP in f.kids && TOP in f.rank && TOP !in f.par
    && (forall n | n in f.par :: n in f.kids && n in f.data && n in f.idx && n in f.rank)
    && (forall n | n in f.kids :: n != TOP ==> n in f.par)
    && (forall n | n in f.data :: n in f.par)
    && (forall n | n in f.kids :: n in f.rank && f.rank[n] < f.bound)
  }

  ghost predicate Placed(f: Forest, n: Id)
    requires Domains(f) && n in f.par
  {
    && f.par[n] in f.kids
    && f.idx[n] < |f.kids[f.par[n]]|
    && f.kids[f.par[n]][f.idx[n]] == n
    && f.rank[f.par[n]] < f.rank[n]
  }

  ghost predicate Listed(f: Forest, p: Id, i: nat)
    requires Domains(f) && p in f.kids && i < |f.kids[p]|
  {
    var c := f.kids[p][i];
    c in f.par && f.par[c] == p && f.idx[c] == i
  }

  /** Every node is in exactly one list of children, exactly once, and chains
      of parents end. */
  ghost predicate WF(f: Forest) {
    && Domains(f)
    && (forall n {:trigger Placed(f, n)} | n in f.par :: Placed(f, n))
    && (forall p, i {:trigger Listed(f, p, i)} | p in f.kids && 0 <= i < |f.kids[p]| :: Listed(f, p, i))
  }

  lemma KidFacts(f: Forest, p: Id, i: nat)
    requires WF(f) && p in f.kids && i < |f.kids[p]|
    ensures var c := f.kids[p][i];
            c in f.par && f.par[c] == p && f.idx[c] == i && f.rank[p] < f.rank[c]
  {
    assert Listed(f, p, i);
    assert Placed(f, f.kids[p][i]);
  }

  // ----- operations -------------------------------------------------------

  /** A new node n with datum x as the k-th child of p. */
  ghost function Inserted(f: Forest, p: Id, k: nat, n: Id, x: HtmlNode): Forest
    requires Domains(f) && p in f.kids && k <= |f.kids[p]| && n !in f.par && n != TOP
  {
    Forest(
      f.kids[p := Splice(f.kids[p], k, [n])][n := []],
      f.par[n := p],
      (map m | m in f.par :: if f.par[m] == p && f.idx[m] >= k then f.idx[m] + 1 else f.idx[m])[n := k],
      f.data[n := x],
      f.rank[n := f.bound],
      f.bound + 1)
  }

  ghost function Appended(f: Forest, p: Id, n: Id, x: HtmlNode): Forest
    requires Domains(f) && p in f.kids && n !in f.par && n != TOP
  {
    Inserted(f, p, |f.kids[p]|, n, x)
  }

  /** The children of n are put in at the k-th place below p. */
  ghost function Lifted(f: Forest, p: Id, k: nat, n: Id): Forest
    requires Domains(f) && p in f.kids && n in f.kids && k <= |f.kids[p]|
  {
    f.(kids := f.kids[p := Splice(f.kids[p], k, f.kids[n])][n := []],
       par := map m | m in f.par :: if f.par[m] == n then p else f.par[m],
       idx := map m | m in f.par ::
                if f.par[m] == n then k + f.idx[m]
                else if f.par[m] == p && f.idx[m] >= k then f.idx[m] + |f.kids[n]|
                else f.idx[m])
  }

  /** The children of n become its next siblings. */
  ghost function Flattened(f: Forest, n: Id): Forest
    requires WF(f) && n in f.par
  {
    assert Placed(f, n);
    if f.kids[n] == [] then f else Lifted(f, f.par[n], f.idx[n] + 1, n)
  }

  ghost function WithData(f: Forest, n: Id, x: HtmlNode): Forest
    requires n in f.data
  {
    f.(data := f.data[n := x])
  }

  lemma InsertedListed(f: Forest, p: Id, k: nat, n: Id, x: HtmlNode, i: nat)
    requires Domains(f) && p in f.kids && k <= |f.kids[p]| && n !in f.par && n != TOP
    requires Domains(Inserted(f, p, k, n, x)) && i <= |f.kids[p]|
    requires i < k ==> Listed(f, p, i)
    requires i > k ==> Listed(f, p, i - 1)
    ensures n !in f.kids && Listed(Inserted(f, p, k, n, x), p, i)
  {
    SpliceAt(f.kids[p], k, [n], i);
  }

  lemma InsertedPlaced(f: Forest, p: Id, k: nat, n: Id, x: HtmlNode, m: Id)
    requires Domains(f) && p in f.kids && k <= |f.kids[p]| && n !in f.par && n != TOP
    requires Domains(Inserted(f, p, k, n, x)) && m in Inserted(f, p, k, n, x).par
    requires m != n ==> Placed(f, m)
    ensures Placed(Inserted(f, p, k, n, x), m)
  {
    var g := Inserted(f, p, k, n, x);
    if g.par[m] == p {
      SpliceAt(f.kids[p], k, [n], g.idx[m]);
    }
  }

  lemma InsertedWF(f: Forest, p: Id, k: nat, n: Id, x: HtmlNode)
    requires WF(f) && p in f.kids && k <= |f.kids[p]| && n !in f.par && n != TOP
    ensures WF(Inserted(f, p, k, n, x))
  {
    var g := Inserted(f, p, k, n, x);
    assert Domains(g);
    forall q, i | q in g.kids && 0 <= i < |g.kids[q]|
      ensures Listed(g, q, i)
    {
      if q == p {
        assert i < k ==> Listed(f, p, i);
        assert i > k ==> Listed(f, p, i - 1);
        InsertedListed(f, p, k, n, x, i);
      } else {
        assert Listed(f, q, i);
      }
    }
    forall m | m in g.par
      ensures Placed(g, m)
    {
      assert m != n ==> Placed(f, m);
      InsertedPlaced(f, p, k, n, x, m);
    }
  }

  /** What Lifted comes to, entry by entry. */
  ghost predicate IsLifted(f: Forest, g: Forest, p: Id, k: nat, n: Id) {
    && Domains(f) && Domains(g) && p in f.kids && n in f.par && p != n && k <= |f.kids[p]|
    && g.kids == f.kids[p := Splice(f.kids[p], k, f.kids[n])][n := []]
    && g.par.Keys == f.par.Keys && g.rank == f.rank && f.rank[p] < f.rank[n]
    && (forall m {:trigger g.par[m]} | m in f.par :: g.par[m] == if f.par[m] == n then p else f.par[m])
    && (forall m {:trigger g.idx[m]} | m in f.par ::
          g.idx[m] == if f.par[m] == n then k + f.idx[m]
                      else if f.par[m] == p && f.idx[m] >= k then f.idx[m] + |f.kids[n]|
                      else f.idx[m])
  }

  lemma LiftedListed(f: Forest, g: Forest, p: Id, k: nat, n: Id, i: nat)
    requires IsLifted(f, g, p, k, n) && i < |f.kids[p]| + |f.kids[n]|
    requires i < k ==> Listed(f, p, i)
    requires k <= i < k + |f.kids[n]| ==> Listed(f, n, i - k)
    requires i >= k + |f.kids[n]| ==> Listed(f, p, i - |f.kids[n]|)
    ensures Listed(g, p, i)
  {
    SpliceAt(f.kids[p], k, f.kids[n], i);
  }

  lemma LiftedPlaced(f: Forest, g: Forest, p: Id, k: nat, n: Id, m: Id)
    requires IsLifted(f, g, p, k, n) && m in f.par && Placed(f, m)
    ensures Placed(g, m)
  {
    if g.par[m] == p {
      assert g.idx[m] < |f.kids[p]| + |f.kids[n]|;
      SpliceAt(f.kids[p], k, f.kids[n], g.idx[m]);
    } else {
      assert g.kids[g.par[m]] == f.kids[f.par[m]];
    }
  }

  lemma LiftedWF(f: Forest, g: Forest, p: Id, k: nat, n: Id)
    requires WF(f) && IsLifted(f, g, p, k, n)
    ensures WF(g)
  {
    var cs := f.kids[n];
    forall q, i | q in g.kids && 0 <= i < |g.kids[q]|
      ensures Listed(g, q, i)
    {
      if q == p {
        assert i < k ==> Listed(f, p, i);
        assert k <= i < k + |cs| ==> Listed(f, n, i - k);
        assert i >= k + |cs| ==> Listed(f, p, i - |cs|);
        LiftedListed(f, g, p, k, n, i);
      } else {
        assert Listed(f, q, i);
      }
    }
    forall m | m in g.par
      ensures Placed(g, m)
    {
      assert Placed(f, m);
      LiftedPlaced(f, g, p, k, n, m);
    }
  }

  lemma FlattenedIsLifted(f: Forest, n: Id)
    requires WF(f) && n in f.par && f.kids[n] != []
    ensures IsLifted(f, Flattened(f, n), f.par[n], f.idx[n] + 1, n)
  {
    assert Placed(f, n);
  }

  lemma FlattenedWF(f: Forest, n: Id)
    requires WF(f) && n in f.par
    ensures WF(Flattened(f, n))
  {
    if f.kids[n] != [] {
      FlattenedIsLifted(f, n);
      LiftedWF(f, Flattened(f, n), f.par[n], f.idx[n] + 1, n);
    }
  }

  lemma WithDataWF(f: Forest, n: Id, x: HtmlNode)
    requires WF(f) && n in f.data
    ensures WF(WithData(f, n, x))
  {
    var g := WithData(f, n, x);
    forall m | m in g.par
      ensures Placed(g, m)
    {
      assert Placed(f, m);
    }
    forall p, i | p in g.kids && 0 <= i < |g.kids[p]|
      ensures Listed(g, p, i)
    {
      assert Listed(f, p, i);
    }
  }

  // ----- the tree at a node -----------------------------------------------

  ghost function TreeOf(f: Forest, n: Id): Tree
    requires WF(f) && n in f.par
    decreases f.bound - f.rank[n]
  {
    var ks := f.kids[n];
    Tree(f.data[n], seq(|ks|, i requires 0 <= i < |ks| => KidFacts(f, n, i); TreeOf(f, ks[i])))
  }

  /** A set of nodes that holds the children of its members. */
  ghost predicate ClosedSet(f: Forest, S: set<Id>)
  {
    forall n, i | n in S && n in f.kids && 0 <= i < |f.kids[n]| :: f.kids[n][i] in S
  }

  /** The tree at a node depends on nothing outside its subtree. */
  lemma {:induction false} SameTree(f: Forest, g: Forest, S: set<Id>, n: Id)
    requires WF(f) && WF(g) && ClosedSet(f, S)
    requires forall m | m in S :: m in f.par && m in g.par && f.kids[m] == g.kids[m] && f.data[m] == g.data[m]
    requires n in S
    ensures TreeOf(f, n) == TreeOf(g, n)
    decreases f.bound - f.rank[n]
  {
    var ks := f.kids[n];
    forall i | 0 <= i < |ks|
      ensures ks[i] in f.par && ks[i] in g.par && TreeOf(f, ks[i]) == TreeOf(g, ks[i])
    {
      KidFacts(f, n, i);
      KidFacts(g, n, i);
      SameTree(f, g, S, ks[i]);
    }
    assert TreeOf(f, n).kids == TreeOf(g, n).kids;
  }
}
