/** A run of siblings that becomes the last children of another node. */
module ForestMove {
  import opened HtmlNodes
  import opened Forests
  import opened ForestErase
  import opened ForestOrder
  import opened DomModel
  import opened Seqs

  /** What is below p by its children from the i-th to in front of the j-th. */
  ghost function Between(f: Forest, p: Id, i: nat, j: nat): set<Id>
    requires WF(f)
  {
    set m | m in f.par && IsUnder(f, m, p) && i <= Branch(f, m, p) < j
  }

  /** m is one of these children. */
  ghost predicate InRun(f: Forest, p: Id, i: nat, j: nat, m: Id) {
    m in f.par && m in f.idx && f.par[m] == p && i <= f.idx[m] < j
  }

  lemma BetweenCloses(f: Forest, p: Id, i: nat, j: nat, m: Id)
    requires WF(f) && p in f.kids && m in f.par
    ensures m in Between(f, p, i, j) <==> InRun(f, p, i, j, m) || f.par[m] in Between(f, p, i, j)
    ensures p !in Between(f, p, i, j) && TOP !in Between(f, p, i, j)
    ensures f.par[m] == p ==> f.par[m] !in Between(f, p, i, j)
  {
    NodeAt(f, m);
    if p in f.par && IsUnder(f, p, p) {
      UnderRank(f, p, p);
    }
  }

  /** A run of a list, and what is left of the list. */
  ghost function Piece(ks: seq<Id>, i: nat, j: nat): (r: seq<Id>)
    requires i <= j <= |ks|
    ensures |r| == j - i && forall x :: 0 <= x < j - i ==> r[x] == ks[i+x]
  {
    ks[i..j]
  }

  ghost function Cut(ks: seq<Id>, i: nat, j: nat): (r: seq<Id>)
    requires i <= j <= |ks|
    ensures |r| == |ks| - (j - i)
    ensures forall x :: 0 <= x < |r| ==> r[x] == if x < i then ks[x] else ks[x+(j-i)]
  {
    ks[..i] + ks[j..]
  }

  lemma CutAt(ks: seq<Id>, i: nat, j: nat, x: nat)
    requires i <= j <= |ks| && x < |ks| - (j - i)
    ensures |Cut(ks, i, j)| == |ks| - (j - i)
    ensures Cut(ks, i, j)[x] == if x >= i then ks[x+(j-i)] else ks[x]
  {
  }

  /** The run can go below q. */
  ghost predicate Movable(f: Forest, p: Id, i: nat, j: nat, q: Id)
    requires WF(f)
  {
    p in f.kids && i < j <= |f.kids[p]| && q in f.kids && q !in Between(f, p, i, j)
  }

  /** The children of q before the run is put behind them. */
  ghost function Base(f: Forest, p: Id, i: nat, j: nat, q: Id): seq<Id>
    requires p in f.kids && q in f.kids && i <= j <= |f.kids[p]|
  {
    if q == p then Cut(f.kids[p], i, j) else f.kids[q]
  }

  ghost function Moved(f: Forest, p: Id, i: nat, j: nat, q: Id): Forest
    requires WF(f) && Movable(f, p, i, j, q)
  {
    var gone := Between(f, p, i, j);
    Forest(
      f.kids[p := Cut(f.kids[p], i, j)][q := Base(f, p, i, j, q) + Piece(f.kids[p], i, j)],
      map m | m in f.par :: if InRun(f, p, i, j, m) then q else f.par[m],
      map m | m in f.par ::
        if InRun(f, p, i, j, m) then |Base(f, p, i, j, q)| + f.idx[m] - i
        else if f.par[m] == p && f.idx[m] >= j then f.idx[m] - (j - i)
        else f.idx[m],
      f.data,
      map m | m in f.rank :: if m in gone then f.rank[m] + f.bound else f.rank[m],
      f.bound + f.bound)
  }

  /** What Moved comes to, entry by entry. */
  ghost predicate IsMoved(f: Forest, g: Forest, p: Id, i: nat, j: nat, q: Id, gone: set<Id>) {
    && Domains(f) && Domains(g) && p in f.kids && i < j <= |f.kids[p]| && q in f.kids
    && g.kids == f.kids[p := Cut(f.kids[p], i, j)][q := Base(f, p, i, j, q) + Piece(f.kids[p], i, j)]
    && g.par.Keys == f.par.Keys && g.data == f.data
    && (forall m {:trigger g.par[m]} | m in f.par :: g.par[m] == if InRun(f, p, i, j, m) then q else f.par[m])
    && (forall m {:trigger g.idx[m]} | m in f.par ::
          g.idx[m] == if InRun(f, p, i, j, m) then |Base(f, p, i, j, q)| + f.idx[m] - i
                      else if f.par[m] == p && f.idx[m] >= j then f.idx[m] - (j - i)
                      else f.idx[m])
    && (forall m {:trigger g.rank[m]} | m in f.kids ::
          g.rank[m] == if m in gone then f.rank[m] + f.bound else f.rank[m])
  }

  lemma MovedIs(f: Forest, p: Id, i: nat, j: nat, q: Id)
    requires WF(f) && Movable(f, p, i, j, q)
    ensures IsMoved(f, Moved(f, p, i, j, q), p, i, j, q, Between(f, p, i, j))
  {
    hide Between, Cut, Piece, Base, InRun, Domains;
    assert Domains(f);
    MovedDomains(f, p, i, j, q);
    RunRange(f, p, i, j);
  }

  lemma RunRange(f: Forest, p: Id, i: nat, j: nat)
    ensures forall m {:trigger InRun(f, p, i, j, m)} ::
              InRun(f, p, i, j, m) ==> m in f.par && m in f.idx && f.idx[m] >= i
  {
  }

  lemma MovedDomains(f: Forest, p: Id, i: nat, j: nat, q: Id)
    requires WF(f) && Movable(f, p, i, j, q)
    ensures Domains(f) && Domains(Moved(f, p, i, j, q))
  {
    hide Between, Cut, Piece, Base, InRun, Placed, Listed;
  }

  lemma MovedPlaced(f: Forest, g: Forest, p: Id, i: nat, j: nat, q: Id, gone: set<Id>, m: Id)
    requires IsMoved(f, g, p, i, j, q, gone) && m in f.par && Placed(f, m) && q !in gone
    requires m in gone <==> InRun(f, p, i, j, m) || f.par[m] in gone
    requires InRun(f, p, i, j, m) ==> f.par[m] !in gone
    ensures Placed(g, m)
  {
    hide Between, Cut, Piece;
    var ks, base := f.kids[p], Base(f, p, i, j, q);
    if InRun(f, p, i, j, m) {
      assert g.kids[q] == base + Piece(ks, i, j);
      assert g.kids[q][|base| + f.idx[m] - i] == Piece(ks, i, j)[f.idx[m]-i];
    } else {
      var x := f.idx[m];
      var y := if f.par[m] == p && x >= j then x - (j - i) else x;
      assert g.par[m] == f.par[m] && g.idx[m] == y;
      if f.par[m] == p {
        CutAt(ks, i, j, y);
        assert Cut(ks, i, j)[y] == m;
      }
      assert f.par[m] == q ==> y < |base| && base[y] == m && g.kids[q][y] == base[y];
    }
  }

  lemma MovedListed(f: Forest, g: Forest, p: Id, i: nat, j: nat, q: Id, gone: set<Id>, r: Id, x: nat)
    requires WF(f) && IsMoved(f, g, p, i, j, q, gone) && r in g.kids && x < |g.kids[r]|
    ensures Listed(g, r, x)
  {
    hide Between, WF, Piece, Cut, Listed;
    var ks, base := f.kids[p], Base(f, p, i, j, q);
    if r == q && x >= |base| {
      var y := i + (x - |base|);
      assert g.kids[r][x] == Piece(ks, i, j)[x-|base|];
      ListedRun(f, g, p, i, j, q, gone, x, y);
    } else {
      var y := if r == p && x >= i then x + (j - i) else x;
      if r == p {
        assert x < |Cut(ks, i, j)| && g.kids[r][x] == Cut(ks, i, j)[x];
        CutAt(ks, i, j, x);
      } else {
        assert x < |f.kids[r]| && g.kids[r][x] == f.kids[r][x];
      }
      ListedElse(f, g, p, i, j, q, gone, r, x, y);
    }
  }

  lemma ListedRun(f: Forest, g: Forest, p: Id, i: nat, j: nat, q: Id, gone: set<Id>, x: nat, y: nat)
    requires WF(f) && IsMoved(f, g, p, i, j, q, gone) && q in g.kids && x < |g.kids[q]|
    requires i <= y < j && g.kids[q][x] == f.kids[p][y] && x == |Base(f, p, i, j, q)| + y - i
    ensures Listed(g, q, x)
  {
    hide Between, WF, Piece, Cut, Base;
    KidAt(f, p, y);
  }

  lemma ListedElse(f: Forest, g: Forest, p: Id, i: nat, j: nat, q: Id, gone: set<Id>, r: Id, x: nat, y: nat)
    requires WF(f) && IsMoved(f, g, p, i, j, q, gone) && r in g.kids && x < |g.kids[r]|
    requires r in f.kids && y < |f.kids[r]| && g.kids[r][x] == f.kids[r][y] && !(r == p && i <= y < j)
    requires x == if r == p && y >= j then y - (j - i) else y
    ensures Listed(g, r, x)
  {
    hide Between, WF, Piece, Cut, Base;
    KidAt(f, r, y);
  }

  lemma MovedWF(f: Forest, p: Id, i: nat, j: nat, q: Id)
    requires WF(f) && Movable(f, p, i, j, q)
    ensures WF(Moved(f, p, i, j, q))
  {
    hide Moved, Between, Placed, Listed, InRun;
    var g, gone := Moved(f, p, i, j, q), Between(f, p, i, j);
    MovedIs(f, p, i, j, q);
    forall m | m in g.par
      ensures Placed(g, m)
    {
      NodeAt(f, m);
      BetweenCloses(f, p, i, j, m);
      RunParent(f, p, i, j, m);
      MovedPlaced(f, g, p, i, j, q, gone, m);
    }
    forall r, x | r in g.kids && 0 <= x < |g.kids[r]|
      ensures Listed(g, r, x)
    {
      MovedListed(f, g, p, i, j, q, gone, r, x);
    }
  }

  lemma RunParent(f: Forest, p: Id, i: nat, j: nat, m: Id)
    ensures InRun(f, p, i, j, m) ==> m in f.par && f.par[m] == p
  {
  }

  // ----- what moving does not change --------------------------------------

  /** A tree that holds neither p nor q stays as it is, moved or not. */
  lemma MovedTree(f: Forest, p: Id, i: nat, j: nat, q: Id, m: Id)
    requires WF(f) && Movable(f, p, i, j, q) && m in f.par && p !in Subtree(f, m) && q !in Subtree(f, m)
    ensures var g := Moved(f, p, i, j, q); WF(g) && m in g.par && TreeOf(g, m) == TreeOf(f, m)
  {
    hide Moved, Between, Piece, Cut, Base, Subtree;
    MovedWF(f, p, i, j, q);
    MovedIs(f, p, i, j, q);
    SubtreeClosed(f, m);
    SameTree(f, Moved(f, p, i, j, q), Subtree(f, m), m);
  }

  /** What moves holds neither of them. */
  lemma RunHolds(f: Forest, p: Id, i: nat, j: nat, q: Id, x: nat)
    requires WF(f) && Movable(f, p, i, j, q) && i <= x < j
    ensures var c := f.kids[p][x]; c in f.par && p !in Subtree(f, c) && q !in Subtree(f, c)
  {
    var c := f.kids[p][x];
    KidFacts(f, p, x);
    SubtreeCloses(f, c, c);
    if q in Subtree(f, c) {
      BranchIs(f, q, p, x);
    }
  }

  /** No node is lost and none is doubled. */
  lemma MovedDocument(f: Forest, p: Id, i: nat, j: nat, q: Id)
    requires WF(f) && Movable(f, p, i, j, q)
    ensures var g := Moved(f, p, i, j, q);
            WF(g) && g.data == f.data && multiset(Document(g)) == multiset(Document(f))
  {
    hide Moved, Between, Document;
    var g := Moved(f, p, i, j, q);
    MovedWF(f, p, i, j, q);
    MovedIs(f, p, i, j, q);
    DocumentOnce(f);
    DocumentOnce(g);
    assert forall n :: n in Document(g) <==> n in Document(f);
    OnceEach(Document(f), Document(g));
  }

  lemma OnceEach(a: seq<Id>, b: seq<Id>)
    requires NoDup(a) && NoDup(b) && forall n :: n in b <==> n in a
    ensures multiset(a) == multiset(b)
  {
    forall n
      ensures multiset(a)[n] == multiset(b)[n]
    {
      OnceCount(a, n);
      OnceCount(b, n);
    }
  }

  lemma {:induction false} OnceCount(a: seq<Id>, n: Id)
    requires NoDup(a)
    ensures multiset(a)[n] == if n in a then 1 else 0
    decreases |a|
  {
    if a != [] {
      assert a == [a[0]] + a[1..];
      OnceCount(a[1..], n);
    }
  }
}
