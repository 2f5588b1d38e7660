/** libhtmlparser/tree.h: what erase does to the links. */
module EraseLinks {
  import opened HtmlNodes
  import opened Forests
  import opened ForestErase
  import opened HtmlLinks
  import opened Seqs

  ghost predicate CanUnlink(h: Heap, n: Id) {
    && n in h
    && (if h[n].prev == TOP then h[n].parent in h else h[n].prev in h)
    && (if h[n].next == TOP then h[n].parent in h else h[n].next in h)
  }

  /** The assignments of erase that take n out of its list. */
  ghost function Unlink(h: Heap, n: Id): (r: Heap)
    requires CanUnlink(h, n)
    ensures r.Keys == h.Keys
  {
    var w := h[n];
    var h1 := if w.prev == TOP then SetFirst(h, w.parent, w.next) else SetNext(h, w.prev, w.next);
    if w.next == TOP then SetLast(h1, w.parent, w.prev) else SetPrev(h1, w.next, w.prev)
  }

  lemma UnlinkAt(h: Heap, n: Id, m: Id)
    requires CanUnlink(h, n) && m in h
    ensures var w, was := h[n], h[m];
            Unlink(h, n)[m] ==
              Fields(was.data, was.parent,
                     if w.prev == TOP && m == w.parent then w.next else was.first,
                     if w.next == TOP && m == w.parent then w.prev else was.last,
                     if w.next != TOP && m == w.next then w.prev else was.prev,
                     if w.prev != TOP && m == w.prev then w.next else was.next)
  {
  }

  lemma WithoutEnds(ks: seq<Id>, k: nat)
    requires k < |ks|
    ensures FirstOf(Without(ks, k)) == if k == 0 then NextAt(ks, k) else FirstOf(ks)
    ensures LastOf(Without(ks, k)) == if k + 1 == |ks| then PrevAt(ks, k) else LastOf(ks)
  {
  }

  lemma WithoutSiblings(ks: seq<Id>, k: nat, i: nat)
    requires k < |ks| && i < |ks| && i != k
    ensures var j := if i > k then i - 1 else i;
            && PrevAt(Without(ks, k), j) == (if i == k + 1 then PrevAt(ks, k) else PrevAt(ks, i))
            && NextAt(Without(ks, k), j) == (if i + 1 == k then NextAt(ks, k) else NextAt(ks, i))
  {
  }

  /** What the forest asks of a node that stays. */
  lemma ErasedFields(f: Forest, n: Id, m: Id)
    requires WF(f) && n in f.par && m in f.par && m in Erased(f, n).par && WF(Erased(f, n))
    ensures Placed(f, m) && Placed(Erased(f, n), m) && f.par[n] in f.kids && f.idx[n] < |f.kids[f.par[n]]|
    ensures var was, now, p, k := Wanted(f, m), Wanted(Erased(f, n), m), f.par[n], f.idx[n];
            var ks := f.kids[p];
            now == Fields(was.data, was.parent,
                          if m == p && k == 0 then NextAt(ks, k) else was.first,
                          if m == p && k + 1 == |ks| then PrevAt(ks, k) else was.last,
                          if f.par[m] == p && f.idx[m] == k + 1 then PrevAt(ks, k) else was.prev,
                          if f.par[m] == p && f.idx[m] + 1 == k then NextAt(ks, k) else was.next)
  {
    hide WF, Without, Erased, Subtree, FirstOf, LastOf, PrevAt, NextAt;
    NodeAt(f, n);
    NodeAt(f, m);
    var g, p, k := Erased(f, n), f.par[n], f.idx[n];
    SubtreeCloses(f, n, n);
    NodeAt(g, m);
    ErasedIs(f, n);
    WantedIs(f, m);
    WantedIs(g, m);
    WithoutEnds(f.kids[p], k);
    if f.par[m] == p {
      WithoutSiblings(f.kids[p], k, f.idx[m]);
    }
    assert g.kids[m] == if m == p then Without(f.kids[p], k) else f.kids[m];
  }

  lemma UnlinkReady(h: Heap, f: Forest, n: Id, head: Id, feet: Id)
    requires WF(f) && Realizes(h, f) && Bracketed(f, head, feet) && n in h && n != head && n != feet
    ensures CanUnlink(h, n) && TOP !in h
  {
    hide WF, Wanted, Placed, Bracketed;
    PlaceLinks(h, f, n);
    if f.par[n] == TOP {
      InnerAtTop(f, head, feet, n);
    }
  }

  /** Between head and feet there are siblings on both sides. */
  lemma InnerAtTop(f: Forest, head: Id, feet: Id, n: Id)
    requires WF(f) && Bracketed(f, head, feet) && n in f.par && n != head && n != feet && f.par[n] == TOP
    ensures n in f.idx && 0 < f.idx[n] && f.idx[n] + 1 < |f.kids[TOP]|
  {
    assert Placed(f, n);
  }

  lemma EraseEach(h: Heap, f: Forest, n: Id, m: Id)
    requires WF(f) && Realizes(h, f) && CanUnlink(h, n) && n in f.par && m in f.par && m in Erased(f, n).par
    requires WF(Erased(f, n)) && TOP !in h
    ensures m in h && Placed(Erased(f, n), m) && Unlink(h, n)[m] == Wanted(Erased(f, n), m)
  {
    hide WF, Erased, Wanted, Unlink, Placed;
    ErasedFields(f, n, m);
    Neighbours(h, f, n, m);
    UnlinkAt(h, n, m);
  }

  /** Who is next to n, by links and by place. */
  lemma Neighbours(h: Heap, f: Forest, n: Id, m: Id)
    requires WF(f) && Realizes(h, f) && n in h && m in h
    ensures m in f.par && n in f.par && f.par[n] in f.kids && f.idx[n] < |f.kids[f.par[n]]| && m in f.idx
    ensures Placed(f, m) && h[m] == Wanted(f, m)
    ensures var w, p, k := h[n], f.par[n], f.idx[n];
            var ks := f.kids[p];
            && w.parent == p && w.prev == PrevAt(ks, k) && w.next == NextAt(ks, k)
            && (w.prev == TOP <==> k == 0) && (w.next == TOP <==> k + 1 == |ks|)
            && (k > 0 ==> (m == w.prev <==> f.par[m] == p && f.idx[m] + 1 == k))
            && (k + 1 < |ks| ==> (m == w.next <==> f.par[m] == p && f.idx[m] == k + 1))
            && (f.par[m] == p ==> f.idx[m] < |ks|)
  {
    hide WF, Wanted, Placed, Realizes;
    NodePlace(h, f, m);
    NodePlace(h, f, n);
    PlaceLinks(h, f, n);
    PlaceLinks(h, f, m);
  }

  /** The links that are left when the subtree at n is gone. */
  lemma EraseConsistent(h: Heap, g: Heap, f: Forest, n: Id, head: Id, feet: Id)
    requires Consistent(h, f, head, feet) && n in h && n != head && n != feet
    requires n in f.par && CanUnlink(h, n) && g.Keys == h.Keys - Subtree(f, n)
    requires forall m {:trigger g[m]} | m in g :: g[m] == Unlink(h, n)[m]
    ensures Consistent(g, Erased(f, n), head, feet)
  {
    hide WF, Erased, Wanted, Unlink, Placed, Bracketed, Domains, CanUnlink, Subtree;
    ErasedWF(f, n);
    WFDomains(Erased(f, n));
    NodeKnown(h, f, head, feet, n);
    ErasedKeys(f, n);
    ErasedBracketed(f, n, head, feet);
    forall m | m in Erased(f, n).par
      ensures Placed(Erased(f, n), m) && g[m] == Wanted(Erased(f, n), m)
    {
      EraseEach(h, f, n, m);
    }
  }

  lemma WFDomains(f: Forest)
    requires WF(f)
    ensures Domains(f)
  {
  }

  lemma ErasedKeys(f: Forest, n: Id)
    requires WF(f) && n in f.par
    ensures Erased(f, n).par.Keys == f.par.Keys - Subtree(f, n) && Erased(f, n).bound == f.bound
  {
    hide Subtree;
  }

  lemma ErasedBracketed(f: Forest, n: Id, head: Id, feet: Id)
    requires WF(f) && Bracketed(f, head, feet) && n in f.par && n != head && n != feet
    ensures TOP in Erased(f, n).kids && Bracketed(Erased(f, n), head, feet)
  {
    hide Subtree, Erased, WF;
    ErasedIs(f, n);
    TopEnds(f, head, feet);
    SubtreeCloses(f, n, head);
    SubtreeCloses(f, n, feet);
    SubtreeCloses(f, n, n);
    if f.par[n] == TOP {
      InnerAtTop(f, head, feet, n);
    }
    NodeAt(f, n);
  }

  lemma TopEnds(f: Forest, head: Id, feet: Id)
    requires WF(f) && Bracketed(f, head, feet)
    ensures head in f.par && feet in f.par && f.par[head] == TOP && f.par[feet] == TOP
  {
    KidFacts(f, TOP, 0);
    KidFacts(f, TOP, |f.kids[TOP]| - 1);
  }

  // ----- freeing what is below --------------------------------------------

  /** erase_children clears the child links of every node that it visits. */
  ghost function Stripped(h: Heap, S: set<Id>): (r: Heap)
    ensures r.Keys == h.Keys
  {
    map m | m in h :: if m in S then h[m].(first := TOP, last := TOP) else h[m]
  }

  /** On S, h is what h0 was. */
  ghost predicate Untouched(h: Heap, h0: Heap, S: set<Id>) {
    forall m {:trigger h[m]} {:trigger m in S} | m in S :: m in h && m in h0 && h[m] == h0[m]
  }

  lemma StrippedNone(h: Heap)
    ensures Stripped(h, {}) == h
  {
  }

  lemma StrippedNext(h: Heap, f: Forest, n: Id, i: nat)
    requires WF(f) && n in f.kids && i < |f.kids[n]|
    ensures Stripped(Stripped(h, BelowPart(f, n, i)), Subtree(f, f.kids[n][i])) == Stripped(h, BelowPart(f, n, i + 1))
  {
    hide BelowPart, Below, WF;
    BelowNext(f, n, i);
  }

  /** The next child of n is as it was before its elder siblings were freed. */
  lemma KidUntouched(h: Heap, h0: Heap, f: Forest, n: Id, i: nat)
    requires WF(f) && Realizes(h0, f) && n in h0 && n in f.kids && i < |f.kids[n]|
    requires Untouched(h, h0, Subtree(f, n))
    ensures var c, now := f.kids[n][i], Stripped(h, BelowPart(f, n, i));
            && Untouched(now, h0, Subtree(f, c))
            && c in now && now[c].next == NextAt(f.kids[n], i)
  {
    hide BelowPart, Below, WF, Subtree, Realizes;
    KidSubtree(f, n, i);
    KidLinks(h0, f, n);
  }

  /** The subtree of the next child: what is freed next, and nothing of what
      was freed before. */
  lemma KidSubtree(f: Forest, n: Id, i: nat)
    requires WF(f) && n in f.kids && i < |f.kids[n]|
    ensures var c := f.kids[n][i];
            && c in Subtree(f, c) && Subtree(f, c) <= Below(f, n) && Below(f, n) <= Subtree(f, n)
            && BelowPart(f, n, i) !! Subtree(f, c)
            && BelowPart(f, n, i + 1) == BelowPart(f, n, i) + Subtree(f, c)
            && c !in Below(f, c) && Subtree(f, c) == Below(f, c) + {c}
  {
    hide BelowPart, Below, WF;
    BelowNext(f, n, i);
    PartOfBelow(f, n, i + 1);
  }

  lemma PartOfBelow(f: Forest, n: Id, i: nat)
    requires WF(f)
    ensures BelowPart(f, n, i) <= Below(f, n)
  {
  }

  lemma KidRank(f: Forest, n: Id, i: nat)
    requires WF(f) && n in f.kids && i < |f.kids[n]|
    ensures Domains(f) && n in f.rank && f.kids[n][i] in f.rank && f.rank[n] < f.rank[f.kids[n][i]] < f.bound
    ensures f.kids[n][i] in f.par
  {
    KidFacts(f, n, i);
  }

  lemma StrippedRoot(h: Heap, f: Forest, n: Id)
    requires WF(f) && n in h && n in f.par
    ensures SetLast(SetFirst(Stripped(h, Below(f, n)), n, TOP), n, TOP) == Stripped(h, Subtree(f, n))
  {
    hide Below, WF;
  }

  lemma RootUntouched(h: Heap, h0: Heap, f: Forest, n: Id)
    requires WF(f) && Realizes(h0, f) && n in h0 && Untouched(h, h0, Subtree(f, n))
    ensures n in h && n in f.par && n in f.kids && h[n].first == FirstOf(f.kids[n])
    ensures forall j :: 0 <= j < |f.kids[n]| ==> f.kids[n][j] in h0
  {
    hide Below, WF;
    KidLinks(h0, f, n);
    assert n in Subtree(f, n);
  }

  /** What erase may rely on. */
  lemma EraseReady(h: Heap, f: Forest, n: Id, head: Id, feet: Id)
    requires Consistent(h, f, head, feet) && n in h && n != head && n != feet
    ensures WF(f) && Realizes(h, f) && n in f.par && n in f.rank && TOP !in h
    ensures Untouched(h, h, Subtree(f, n)) && Subtree(f, n) <= h.Keys && n in Subtree(f, n)
    ensures n !in Below(f, n) && head !in Subtree(f, n) && feet !in Subtree(f, n) && Domains(f)
    ensures CanUnlink(h, n)
  {
    hide Below, Bracketed, CanUnlink, WF;
    NodeKnown(h, f, head, feet, n);
    UnlinkReady(h, f, n, head, feet);
    TopEnds(f, head, feet);
    SubtreeCloses(f, n, head);
    SubtreeCloses(f, n, feet);
    BelowKnown(f, n);
  }

  lemma BelowKnown(f: Forest, n: Id)
    requires WF(f) && n in f.par
    ensures Below(f, n) <= f.par.Keys && n !in Below(f, n) && Domains(f)
  {
    if n in Below(f, n) {
      UnderRank(f, n, n);
    }
  }

  lemma StrippedUnlink(h: Heap, n: Id, S: set<Id>)
    requires CanUnlink(h, n)
    ensures CanUnlink(Stripped(h, S), n)
    ensures forall m {:trigger m in S} | m in h && m !in S :: Unlink(Stripped(h, S), n)[m] == Unlink(h, n)[m]
  {
    assert Stripped(h, S)[n].prev == h[n].prev && Stripped(h, S)[n].next == h[n].next
           && Stripped(h, S)[n].parent == h[n].parent;
    forall m | m in h && m !in S
      ensures Unlink(Stripped(h, S), n)[m] == Unlink(h, n)[m]
    {
      UnlinkAt(h, n, m);
      UnlinkAt(Stripped(h, S), n, m);
    }
  }

  // ----- clearing ---------------------------------------------------------

  /** Taking out the node behind head makes the top level shorter. */
  lemma ErasedTop(f: Forest, n: Id)
    requires WF(f) && n in f.par && f.par[n] == TOP
    ensures TOP in f.kids && TOP in Erased(f, n).kids && |Erased(f, n).kids[TOP]| == |f.kids[TOP]| - 1
  {
    hide Below;
    NodeAt(f, n);
    SubtreeCloses(f, n, n);
  }

  lemma TwoAtTop(f: Forest, head: Id, feet: Id)
    requires WF(f) && TOP in f.kids && Bracketed(f, head, feet) && f.kids[TOP][1] == feet
    ensures f.kids[TOP] == [head, feet]
  {
    KidFacts(f, TOP, 1);
    KidFacts(f, TOP, |f.kids[TOP]| - 1);
  }

  /** When only the sentinels are at the top level, there are no other nodes. */
  lemma {:induction false} OnlySentinels(f: Forest, head: Id, feet: Id, m: Id)
    requires WF(f) && Bracketed(f, head, feet) && |f.kids[TOP]| == 2 && m in f.par
    ensures m == head || m == feet
    decreases f.rank[m]
  {
    assert Placed(f, m);
    if f.par[m] != TOP {
      OnlySentinels(f, head, feet, f.par[m]);
      assert false;
    }
  }
}
