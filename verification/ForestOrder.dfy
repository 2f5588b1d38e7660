/** Document order: the nodes of a forest in pre-order. */
module ForestOrder {
  import opened HtmlNodes
  import opened Forests
  import opened ForestErase
  import opened Seqs

  /** The subtrees of p's children from the i-th on, in pre-order. */
  ghost function PreFrom(f: Forest, p: Id, i: nat): seq<Id>
    requires WF(f) && p in f.kids && i <= |f.kids[p]|
    decreases f.bound - f.rank[p], |f.kids[p]| - i
  {
    if i == |f.kids[p]| then []
    else
      KidFacts(f, p, i);
      [f.kids[p][i]] + PreFrom(f, f.kids[p][i], 0) + PreFrom(f, p, i + 1)
  }

  /** The subtrees of p's first i children. */
  ghost function PreTo(f: Forest, p: Id, i: nat): seq<Id>
    requires WF(f) && p in f.kids && i <= |f.kids[p]|
  {
    if i == 0 then []
    else
      KidFacts(f, p, i - 1);
      PreTo(f, p, i - 1) + ([f.kids[p][i-1]] + PreFrom(f, f.kids[p][i-1], 0))
  }

  /** All nodes in document order. */
  ghost function Document(f: Forest): seq<Id>
    requires WF(f)
  {
    PreFrom(f, TOP, 0)
  }

  /** What comes before n. */
  ghost function Before(f: Forest, n: Id): seq<Id>
    requires WF(f) && n in f.par
    decreases f.rank[n]
  {
    assert Placed(f, n);
    var p := f.par[n];
    (if p == TOP then [] else Before(f, p) + [p]) + PreTo(f, p, f.idx[n])
  }

  /** What comes behind n and all below it. */
  ghost function After(f: Forest, n: Id): seq<Id>
    requires WF(f) && n in f.par
    decreases f.rank[n]
  {
    assert Placed(f, n);
    var p := f.par[n];
    PreFrom(f, p, f.idx[n] + 1) + (if p == TOP then [] else After(f, p))
  }

  lemma {:induction false} PreSplit(f: Forest, p: Id, i: nat)
    requires WF(f) && p in f.kids && i <= |f.kids[p]|
    ensures PreFrom(f, p, 0) == PreTo(f, p, i) + PreFrom(f, p, i)
  {
    if i > 0 {
      PreSplit(f, p, i - 1);
      KidFacts(f, p, i - 1);
      var c := f.kids[p][i-1];
      Regroup(PreTo(f, p, i - 1), [c] + PreFrom(f, c, 0), PreFrom(f, p, i));
    }
  }

  /** The document around n. */
  lemma {:induction false} DocumentSplit(f: Forest, n: Id)
    requires WF(f) && n in f.par
    ensures n in f.kids && Document(f) == Before(f, n) + [n] + (PreFrom(f, n, 0) + After(f, n))
    decreases f.rank[n]
  {
    hide PreFrom, PreTo, Before, After, WF;
    Surroundings(f, n);
    var p, i := f.par[n], f.idx[n];
    PreSplit(f, p, i);
    var x, y, z := PreTo(f, p, i), PreFrom(f, n, 0), PreFrom(f, p, i + 1);
    var b, a := if p == TOP then [] else Before(f, p) + [p], if p == TOP then [] else After(f, p);
    if p != TOP {
      DocumentSplit(f, p);
      Regroup(Before(f, p) + [p], PreFrom(f, p, 0), After(f, p));
    } else {
      assert [] + PreFrom(f, p, 0) + [] == PreFrom(f, p, 0);
    }
    RegroupAround(b, x, [n], y, z, a);
  }

  /** One step up from n. */
  lemma Surroundings(f: Forest, n: Id)
    requires WF(f) && n in f.par
    ensures n in f.idx
    ensures var p, i := f.par[n], f.idx[n];
            && n in f.kids && p in f.kids && i < |f.kids[p]| && p in f.rank && f.rank[p] < f.rank[n]
            && (p != TOP ==> p in f.par)
            && PreFrom(f, p, i) == [n] + PreFrom(f, n, 0) + PreFrom(f, p, i + 1)
            && Before(f, n) == (if p == TOP then [] else Before(f, p) + [p]) + PreTo(f, p, i)
            && After(f, n) == PreFrom(f, p, i + 1) + if p == TOP then [] else After(f, p)
  {
    assert Placed(f, n);
  }

  lemma RegroupAround<T>(b: seq<T>, x: seq<T>, n: seq<T>, y: seq<T>, z: seq<T>, a: seq<T>)
    ensures b + (x + (n + y + z)) + a == (b + x) + n + (y + (z + a))
  {
  }

  /** m lies below p, by the i-th child or a later one. */
  ghost predicate FromBranch(f: Forest, m: Id, p: Id, i: nat)
    requires WF(f)
  {
    m in f.par && IsUnder(f, m, p) && Branch(f, m, p) >= i
  }

  lemma {:induction false} PreFromBranch(f: Forest, p: Id, i: nat, m: Id)
    requires WF(f) && p in f.kids && i <= |f.kids[p]| && m in PreFrom(f, p, i)
    ensures FromBranch(f, m, p, i)
    decreases f.bound - f.rank[p], |f.kids[p]| - i
  {
    KidFacts(f, p, i);
    var c := f.kids[p][i];
    BranchIs(f, c, p, i);
    if m in PreFrom(f, c, 0) {
      PreFromBranch(f, c, 0, m);
      BranchIs(f, m, p, i);
    } else if m in PreFrom(f, p, i + 1) {
      PreFromBranch(f, p, i + 1, m);
    }
  }

  lemma {:induction false} PreFromOnce(f: Forest, p: Id, i: nat)
    requires WF(f) && p in f.kids && i <= |f.kids[p]|
    ensures NoDup(PreFrom(f, p, i))
    decreases f.bound - f.rank[p], |f.kids[p]| - i
  {
    if i < |f.kids[p]| {
      KidFacts(f, p, i);
      var c := f.kids[p][i];
      PreFromOnce(f, c, 0);
      PreFromOnce(f, p, i + 1);
      forall m | m in PreFrom(f, c, 0)
        ensures m != c && m !in PreFrom(f, p, i + 1)
      {
        PreFromBranch(f, c, 0, m);
        UnderRank(f, m, c);
        BranchIs(f, m, p, i);
        if m in PreFrom(f, p, i + 1) {
          PreFromBranch(f, p, i + 1, m);
        }
      }
      if c in PreFrom(f, p, i + 1) {
        PreFromBranch(f, p, i + 1, c);
        BranchIs(f, c, p, i);
      }
      NoDupJoin([c], PreFrom(f, c, 0));
      NoDupJoin([c] + PreFrom(f, c, 0), PreFrom(f, p, i + 1));
    }
  }

  lemma NoDupJoin(a: seq<Id>, b: seq<Id>)
    requires NoDup(a) && NoDup(b) && forall m | m in a :: m !in b
    ensures NoDup(a + b)
  {
    var s := a + b;
    forall i, j | 0 <= i < j < |s|
      ensures s[i] != s[j]
    {
      assert s[i] == if i < |a| then a[i] else b[i-|a|];
      assert s[j] == if j < |a| then a[j] else b[j-|a|];
      assert i < |a| ==> a[i] in a && a[i] !in b;
    }
  }

  /** Every node has one place in the document. */
  lemma DocumentOnce(f: Forest)
    requires WF(f)
    ensures NoDup(Document(f))
    ensures forall n :: n in Document(f) <==> n in f.par
  {
    PreFromOnce(f, TOP, 0);
    forall n | n in f.par
      ensures n in Document(f)
    {
      DocumentSplit(f, n);
    }
    forall n | n in Document(f)
      ensures n in f.par
    {
      PreFromBranch(f, TOP, 0, n);
    }
  }

  // ----- one step forward and back ----------------------------------------

  ghost function First(s: seq<Id>): Id {
    if s == [] then TOP else s[0]
  }

  ghost function Last(s: seq<Id>): Id {
    if s == [] then TOP else s[|s|-1]
  }

  /** Where ++ goes when the children are passed over: to the next sibling of
      the nearest ancestor or self that has one. */
  ghost function Passed(f: Forest, n: Id): Id
    requires WF(f) && n in f.par
    decreases f.rank[n]
  {
    assert Placed(f, n);
    var p, i := f.par[n], f.idx[n];
    if i + 1 < |f.kids[p]| then f.kids[p][i+1] else if p == TOP then TOP else Passed(f, p)
  }

  /** The last node of the subtree at n. */
  ghost function Deepest(f: Forest, n: Id): Id
    requires WF(f) && n in f.kids
    decreases f.bound - f.rank[n]
  {
    var ks := f.kids[n];
    if ks == [] then n else KidFacts(f, n, |ks| - 1); Deepest(f, ks[|ks|-1])
  }

  lemma {:induction false} PassedIsNext(f: Forest, n: Id)
    requires WF(f) && n in f.par
    ensures Passed(f, n) == First(After(f, n))
    decreases f.rank[n]
  {
    assert Placed(f, n);
    var p := f.par[n];
    if f.idx[n] + 1 == |f.kids[p]| && p != TOP {
      PassedIsNext(f, p);
    }
  }

  lemma {:induction false} DeepestIsLast(f: Forest, n: Id)
    requires WF(f) && n in f.kids
    ensures Deepest(f, n) == Last([n] + PreFrom(f, n, 0))
    decreases f.bound - f.rank[n]
  {
    var ks := f.kids[n];
    if ks != [] {
      var c := ks[|ks|-1];
      KidFacts(f, n, |ks| - 1);
      DeepestIsLast(f, c);
      PreSplit(f, n, |ks| - 1);
      assert PreFrom(f, n, |ks|) == [];
      assert PreFrom(f, n, |ks| - 1) == [c] + PreFrom(f, c, 0);
    }
  }

  /** The place of n in the document. */
  ghost function Position(f: Forest, n: Id): nat
    requires WF(f) && n in f.par
  {
    |Before(f, n)|
  }

  lemma PositionIs(f: Forest, n: Id)
    requires WF(f) && n in f.par
    ensures Position(f, n) < |Document(f)| && Document(f)[Position(f, n)] == n
    ensures n in f.kids && Document(f)[..Position(f, n)] == Before(f, n)
    ensures Document(f)[Position(f, n)+1..] == PreFrom(f, n, 0) + After(f, n)
  {
    DocumentSplit(f, n);
  }

  lemma PositionOf(f: Forest, k: nat)
    requires WF(f) && k < |Document(f)|
    ensures Document(f)[k] in f.par && Position(f, Document(f)[k]) == k
  {
    DocumentOnce(f);
    PositionIs(f, Document(f)[k]);
  }

  /** The successor of n by the rule of ++. */
  ghost function Successor(f: Forest, n: Id): Id
    requires WF(f) && n in f.par
  {
    assert Placed(f, n);
    if f.kids[n] != [] then f.kids[n][0] else Passed(f, n)
  }

  /** The predecessor of n by the rule of --. */
  ghost function Predecessor(f: Forest, n: Id): Id
    requires WF(f) && n in f.par
  {
    assert Placed(f, n);
    var p, i := f.par[n], f.idx[n];
    if i > 0 then KidFacts(f, p, i - 1); Deepest(f, f.kids[p][i-1]) else p
  }

  /** ++ and -- are one step in the document. */
  lemma StepsInDocument(f: Forest, k: nat)
    requires WF(f) && k < |Document(f)|
    ensures Document(f)[k] in f.par
    ensures Successor(f, Document(f)[k]) == if k + 1 < |Document(f)| then Document(f)[k+1] else TOP
    ensures Predecessor(f, Document(f)[k]) == if k > 0 then Document(f)[k-1] else TOP
  {
    PositionOf(f, k);
    var n := Document(f)[k];
    PositionIs(f, n);
    SuccessorIs(f, n);
    PredecessorIs(f, n);
    assert First(Document(f)[k+1..]) == if k + 1 < |Document(f)| then Document(f)[k+1] else TOP;
    assert Last(Document(f)[..k]) == if k > 0 then Document(f)[k-1] else TOP;
  }

  lemma SuccessorIs(f: Forest, n: Id)
    requires WF(f) && n in f.par
    ensures n in f.kids && Successor(f, n) == First(PreFrom(f, n, 0) + After(f, n))
  {
    assert Placed(f, n);
    PassedIsNext(f, n);
  }

  lemma PredecessorIs(f: Forest, n: Id)
    requires WF(f) && n in f.par
    ensures Predecessor(f, n) == Last(Before(f, n))
  {
    assert Placed(f, n);
    var p, i := f.par[n], f.idx[n];
    if i > 0 {
      KidFacts(f, p, i - 1);
      DeepestIsLast(f, f.kids[p][i-1]);
    }
  }

  // ----- what flattening does not change ----------------------------------

  lemma PreStep(f: Forest, p: Id, i: nat)
    requires WF(f) && p in f.kids && i < |f.kids[p]|
    ensures f.kids[p][i] in f.kids && f.rank[p] < f.rank[f.kids[p][i]] < f.bound
    ensures PreFrom(f, p, i) == [f.kids[p][i]] + PreFrom(f, f.kids[p][i], 0) + PreFrom(f, p, i + 1)
  {
    KidFacts(f, p, i);
  }

  lemma PreEnd(f: Forest, p: Id)
    requires WF(f) && p in f.kids
    ensures PreFrom(f, p, |f.kids[p]|) == []
  {
  }

  /** What PreFrom(g, q, i) comes to in f, when n is flattened into the list
      of p. */
  ghost function FlatPart(f: Forest, p: Id, k: nat, n: Id, q: Id, i: nat): seq<Id>
    requires WF(f) && p in f.kids && n in f.kids && q in f.kids && k <= |f.kids[p]|
    requires i <= |f.kids[q]| + if q == p then |f.kids[n]| else 0
  {
    if q != p || i < k then PreFrom(f, q, i)
    else if i <= k + |f.kids[n]| then PreFrom(f, n, i - k) + PreFrom(f, p, k)
    else PreFrom(f, p, i - |f.kids[n]|)
  }

  lemma LiftedList(f: Forest, g: Forest, p: Id, k: nat, n: Id, q: Id)
    requires WF(f) && IsLifted(f, g, p, k, n) && q in g.kids && q != n
    ensures q in f.kids && p in f.kids && n in f.kids && p in g.kids && n in g.kids && g.kids[n] == []
    ensures f.rank == g.rank && q in f.rank && k <= |f.kids[p]|
    ensures |g.kids[q]| == |f.kids[q]| + if q == p then |f.kids[n]| else 0
    ensures forall i :: 0 <= i < |g.kids[q]| ==>
      g.kids[q][i] == if q != p || i < k then f.kids[q][i]
                      else if i < k + |f.kids[n]| then f.kids[n][i-k]
                      else f.kids[p][i-|f.kids[n]|]
  {
  }

  /** Step by step below q. */
  lemma FlatPartStep(f: Forest, p: Id, k: nat, n: Id, q: Id, i: nat)
    requires WF(f) && p in f.kids && n in f.kids && q in f.kids && 0 < k <= |f.kids[p]| && f.kids[p][k-1] == n
    requires i < |f.kids[q]| + (if q == p then |f.kids[n]| else 0) && q != n
    ensures var c := if q != p || i < k then f.kids[q][i]
                     else if i < k + |f.kids[n]| then f.kids[n][i-k]
                     else f.kids[p][i-|f.kids[n]|];
            && c in f.kids
            && FlatPart(f, p, k, n, q, i) == [c] + (if c == n then [] else PreFrom(f, c, 0))
               + FlatPart(f, p, k, n, q, i + 1)
  {
    hide PreFrom, WF;
    var cs := f.kids[n];
    PreEnd(f, n);
    if q != p || i < k {
      PreStep(f, q, i);
      NotTwice(f, q, i, p, k, n);
      if f.kids[q][i] == n {
        Regroup([n], PreFrom(f, n, 0), PreFrom(f, p, k));
        assert [n] + [] == [n];
      }
    } else if i < k + |cs| {
      PreStep(f, n, i - k);
      Regroup([cs[i-k]] + PreFrom(f, cs[i-k], 0), PreFrom(f, n, i - k + 1), PreFrom(f, p, k));
    } else {
      assert [] + PreFrom(f, p, k) == PreFrom(f, p, k);
      PreStep(f, p, i - |cs|);
      NotTwice(f, p, i - |cs|, p, k, n);
    }
  }

  /** n has one place only. */
  lemma NotTwice(f: Forest, q: Id, i: nat, p: Id, k: nat, n: Id)
    requires WF(f) && p in f.kids && q in f.kids && 0 < k <= |f.kids[p]| && f.kids[p][k-1] == n
    requires i < |f.kids[q]|
    ensures f.kids[q][i] == n ==> q == p && i == k - 1
  {
    KidFacts(f, q, i);
    KidFacts(f, p, k - 1);
  }

  lemma {:induction false} FlatFrom(f: Forest, g: Forest, p: Id, k: nat, n: Id, q: Id, i: nat)
    requires WF(f) && WF(g) && IsLifted(f, g, p, k, n) && k > 0 && f.kids[p][k-1] == n
    requires q in g.kids && q != n && i <= |g.kids[q]| && f.bound == g.bound
    ensures q in f.kids && n in f.kids && i <= |f.kids[q]| + if q == p then |f.kids[n]| else 0
    ensures PreFrom(g, q, i) == FlatPart(f, p, k, n, q, i)
    decreases f.bound - f.rank[q], |g.kids[q]| - i
  {
    hide PreFrom, WF, FlatPart, IsLifted;
    LiftedList(f, g, p, k, n, q);
    if i == |g.kids[q]| {
      PreEnd(g, q);
      FlatPartEnd(f, p, k, n, q);
    } else {
      PreStep(g, q, i);
      FlatPartStep(f, p, k, n, q, i);
      FlatFrom(f, g, p, k, n, q, i + 1);
      var c := g.kids[q][i];
      if c == n {
        PreEnd(g, n);
      } else {
        FlatFrom(f, g, p, k, n, c, 0);
        FlatPartStart(f, p, k, n, c);
      }
    }
  }

  lemma FlatPartEnd(f: Forest, p: Id, k: nat, n: Id, q: Id)
    requires WF(f) && p in f.kids && n in f.kids && q in f.kids && k <= |f.kids[p]|
    ensures FlatPart(f, p, k, n, q, |f.kids[q]| + if q == p then |f.kids[n]| else 0) == []
  {
    hide WF;
    PreEnd(f, q);
    PreEnd(f, n);
  }

  lemma FlatPartStart(f: Forest, p: Id, k: nat, n: Id, q: Id)
    requires WF(f) && p in f.kids && n in f.kids && q in f.kids && 0 < k <= |f.kids[p]|
    ensures FlatPart(f, p, k, n, q, 0) == PreFrom(f, q, 0)
  {
  }

  /** flatten leaves the document order alone. */
  lemma FlattenKeepsDocument(f: Forest, n: Id)
    requires WF(f) && n in f.par
    ensures WF(Flattened(f, n)) && Document(Flattened(f, n)) == Document(f)
  {
    hide PreFrom, FlatPart, IsLifted;
    FlattenedWF(f, n);
    if f.kids[n] != [] {
      FlattenedIsLifted(f, n);
      NodeAt(f, n);
      FlatFrom(f, Flattened(f, n), f.par[n], f.idx[n] + 1, n, TOP, 0);
      FlatPartStart(f, f.par[n], f.idx[n] + 1, n, TOP);
    }
  }

  // ----- the next node at the same depth ----------------------------------

  ghost function Depth(f: Forest, n: Id): nat
    requires WF(f) && n in f.par
    decreases f.rank[n]
  {
    assert Placed(f, n);
    if f.par[n] == TOP then 0 else Depth(f, f.par[n]) + 1
  }

  /** The first node of s that is d deep, or TOP. */
  ghost function Seek(f: Forest, s: seq<Id>, d: nat): Id
    requires WF(f)
  {
    if s == [] then TOP
    else if s[0] in f.par && Depth(f, s[0]) == d then s[0]
    else Seek(f, s[1..], d)
  }

  /** What comes behind n in the document. */
  ghost function Tail(f: Forest, n: Id): seq<Id>
    requires WF(f) && n in f.par
  {
    assert Placed(f, n);
    PreFrom(f, n, 0) + After(f, n)
  }

  lemma {:induction false} SeekPast(f: Forest, a: seq<Id>, b: seq<Id>, d: nat)
    requires WF(f) && forall m | m in a :: m in f.par ==> Depth(f, m) != d
    ensures Seek(f, a + b, d) == Seek(f, b, d)
    decreases |a|
  {
    if a == [] {
      assert a + b == b;
    } else {
      assert (a + b)[1..] == a[1..] + b;
      SeekPast(f, a[1..], b, d);
    }
  }

  lemma {:induction false} UnderIsDeeper(f: Forest, m: Id, n: Id)
    requires WF(f) && m in f.par && n in f.par && IsUnder(f, m, n)
    ensures Depth(f, m) > Depth(f, n)
    decreases f.rank[m]
  {
    assert Placed(f, m) && Placed(f, n);
    if f.par[m] != n {
      UnderIsDeeper(f, f.par[m], n);
    }
  }

  /** Nothing below n is as deep as n. */
  lemma SeekPastBelow(f: Forest, n: Id)
    requires WF(f) && n in f.par
    ensures Seek(f, Tail(f, n), Depth(f, n)) == Seek(f, After(f, n), Depth(f, n))
  {
    assert Placed(f, n);
    forall m | m in PreFrom(f, n, 0)
      ensures m in f.par && Depth(f, m) != Depth(f, n)
    {
      PreFromBranch(f, n, 0, m);
      UnderIsDeeper(f, m, n);
    }
    SeekPast(f, PreFrom(f, n, 0), After(f, n), Depth(f, n));
  }

  /** Behind a last child comes what is behind its parent. */
  lemma SeekUp(f: Forest, n: Id)
    requires WF(f) && n in f.par && NextSibling(f, n) == TOP
    ensures f.par[n] == TOP ==> After(f, n) == []
    ensures f.par[n] != TOP ==>
      f.par[n] in f.par && After(f, n) == After(f, f.par[n]) && Depth(f, n) == Depth(f, f.par[n]) + 1
      && f.rank[f.par[n]] < f.rank[n]
  {
    assert Placed(f, n);
    var k := f.idx[n] + 1;
    if k < |f.kids[f.par[n]]| {
      KidFacts(f, f.par[n], k);
    }
  }

  /** Behind another child comes its next sibling. */
  lemma SeekSide(f: Forest, n: Id)
    requires WF(f) && n in f.par && NextSibling(f, n) != TOP
    ensures var m := NextSibling(f, n);
            m in f.par && After(f, n) == [m] + Tail(f, m) && Depth(f, m) == Depth(f, n)
  {
    assert Placed(f, n);
    var p, k := f.par[n], f.idx[n] + 1;
    KidFacts(f, p, k);
    var m := f.kids[p][k];
    if p != TOP {
      assert [m] + PreFrom(f, m, 0) + PreFrom(f, p, k + 1) + After(f, p)
             == [m] + (PreFrom(f, m, 0) + (PreFrom(f, p, k + 1) + After(f, p)));
    } else {
      assert [m] + PreFrom(f, m, 0) + PreFrom(f, p, k + 1) + []
             == [m] + (PreFrom(f, m, 0) + (PreFrom(f, p, k + 1) + []));
    }
  }

  /** Behind a parent comes its first child. */
  lemma SeekDown(f: Forest, n: Id)
    requires WF(f) && n in f.par
    ensures n in f.kids
    ensures f.kids[n] == [] ==> Tail(f, n) == After(f, n)
    ensures f.kids[n] != [] ==>
      var c := f.kids[n][0]; c in f.par && Tail(f, n) == [c] + Tail(f, c) && Depth(f, c) == Depth(f, n) + 1
  {
    NodeAt(f, n);
    if f.kids[n] != [] {
      KidFacts(f, n, 0);
      var c := f.kids[n][0];
      RegroupRight([c], PreFrom(f, c, 0), PreFrom(f, n, 1), After(f, n));
    }
  }

  ghost function PrevSibling(f: Forest, n: Id): Id
    requires WF(f) && n in f.par
  {
    assert Placed(f, n);
    var ks, i := f.kids[f.par[n]], f.idx[n];
    if i == 0 then TOP else ks[i-1]
  }

  ghost function NextSibling(f: Forest, n: Id): Id
    requires WF(f) && n in f.par
  {
    assert Placed(f, n);
    var ks, i := f.kids[f.par[n]], f.idx[n];
    if i + 1 == |ks| then TOP else ks[i+1]
  }

  /** One node that is too shallow, or the one that is sought. */
  lemma SeekOne(f: Forest, m: Id, d: nat)
    requires WF(f) && m in f.par
    ensures Seek(f, [m] + Tail(f, m), d) == if Depth(f, m) == d then m else Seek(f, Tail(f, m), d)
  {
    assert ([m] + Tail(f, m))[1..] == Tail(f, m);
  }

  /** Seek finds the first node of the depth that is sought. */
  lemma {:induction false} SeekIsFirst(f: Forest, s: seq<Id>, d: nat) returns (k: nat)
    requires WF(f) && forall m | m in s :: m in f.par
    ensures k <= |s| && Seek(f, s, d) == if k < |s| then s[k] else TOP
    ensures k < |s| ==> s[k] in f.par && Depth(f, s[k]) == d
    ensures forall i :: 0 <= i < k ==> s[i] in f.par && Depth(f, s[i]) != d
  {
    if s == [] {
      k := 0;
    } else if Depth(f, s[0]) == d {
      k := 0;
    } else {
      k := SeekIsFirst(f, s[1..], d);
      k := k + 1;
    }
  }
}
