/** libhtmlparser/tree.h: what replace does to the links before it copies. */
module ReplaceLinks {
  import opened HtmlNodes
  import opened Forests
  import opened ForestErase
  import opened ForestCopy
  import opened HtmlLinks
  import opened EraseLinks
  import opened Seqs

  /** The assignments that put t in the place of n. */
  ghost function Relink(h: Heap, n: Id, t: Id): (r: Heap)
    requires CanUnlink(h, n) && t in h
    ensures r.Keys == h.Keys
  {
    var w := h[n];
    var h1 := SetPrev(if w.prev == TOP then SetFirst(h, w.parent, t) else SetNext(h, w.prev, t), t, w.prev);
    var h2 := SetNext(if w.next == TOP then SetLast(h1, w.parent, t) else SetPrev(h1, w.next, t), t, w.next);
    SetParent(h2, t, w.parent)
  }

  lemma RelinkAt(h: Heap, n: Id, t: Id, m: Id)
    requires CanUnlink(h, n) && t in h && m in h && t != n
    requires h[n].prev != t && h[n].next != t && h[n].parent != t
    ensures var w, was := h[n], h[m];
            Relink(h, n, t)[m] ==
              if m == t then Fields(was.data, w.parent, was.first, was.last, w.prev, w.next)
              else Fields(was.data, was.parent,
                          if w.prev == TOP && m == w.parent then t else was.first,
                          if w.next == TOP && m == w.parent then t else was.last,
                          if w.next != TOP && m == w.next then t else was.prev,
                          if w.prev != TOP && m == w.prev then t else was.next)
  {
  }

  /** What the forest asks of t. */
  lemma ReplacedNew(f: Forest, n: Id, t: Id, x: HtmlNode)
    requires WF(f) && n in f.par && t !in f.par && t != TOP && WF(Replaced(f, n, t, x))
    ensures n in f.idx && f.par[n] in f.kids && f.idx[n] < |f.kids[f.par[n]]|
    ensures t in Replaced(f, n, t, x).par && Placed(Replaced(f, n, t, x), t)
    ensures Wanted(Replaced(f, n, t, x), t)
         == Fields(x, f.par[n], TOP, TOP, PrevAt(f.kids[f.par[n]], f.idx[n]), NextAt(f.kids[f.par[n]], f.idx[n]))
  {
    hide WF, Erased, Inserted, Wanted;
    ReplaceReady(f, n, t);
    InsertedKnows(Erased(f, n), f.par[n], f.idx[n], t, x);
    NodePlace0(Replaced(f, n, t, x), t);
    InsertedNewFields(Erased(f, n), f.par[n], f.idx[n], t, x);
  }

  lemma InsertedKnows(f: Forest, p: Id, k: nat, n: Id, x: HtmlNode)
    requires Domains(f) && p in f.kids && k <= |f.kids[p]| && n !in f.par && n != TOP
    ensures var g := Inserted(f, p, k, n, x);
            g.par.Keys == f.par.Keys + {n} && g.bound == f.bound + 1 && TOP in g.kids
  {
  }

  /** And of the nodes that stay. */
  lemma ReplacedFields(f: Forest, n: Id, t: Id, x: HtmlNode, m: Id)
    requires WF(f) && n in f.par && t !in f.par && t != TOP && WF(Replaced(f, n, t, x))
    requires m in f.par && m in Erased(f, n).par
    ensures n in f.idx && f.par[n] in f.kids && f.idx[n] < |f.kids[f.par[n]]|
    ensures Placed(f, m) && m in Replaced(f, n, t, x).par && Placed(Replaced(f, n, t, x), m) && m != n
    ensures var was, now, p, k := Wanted(f, m), Wanted(Replaced(f, n, t, x), m), f.par[n], f.idx[n];
            now == Fields(was.data, was.parent,
                          if m == p && k == 0 then t else was.first,
                          if m == p && k + 1 == |f.kids[p]| then t else was.last,
                          if f.par[m] == p && f.idx[m] == k + 1 then t else was.prev,
                          if f.par[m] == p && f.idx[m] + 1 == k then t else was.next)
  {
    hide WF, Erased, Inserted, Wanted, Subtree, Without, Domains;
    ReplaceReady(f, n, t);
    var e, p, k := Erased(f, n), f.par[n], f.idx[n];
    NodePlace0(f, m);
    NodePlace0(e, m);
    ErasedFields(f, n, m);
    InsertedKnows(e, p, k, t, x);
    NodePlace0(Replaced(f, n, t, x), m);
    InsertedFields(e, p, k, t, x, m);
    StaysBeside(f, n, m);
  }

  lemma StaysBeside(f: Forest, n: Id, m: Id)
    requires WF(f) && n in f.par && m in f.par && m in Erased(f, n).par
    ensures var e, p, k := Erased(f, n), f.par[n], f.idx[n];
            && m in e.idx && m in f.idx && m in e.par && m != n && e.par[m] == f.par[m]
            && e.idx[m] == (if f.par[m] == p && f.idx[m] > k then f.idx[m] - 1 else f.idx[m])
            && (f.par[m] == p ==> f.idx[m] != k)
  {
    hide Erased, Without;
    ErasedIs(f, n);
    NodeAt(f, n);
    NodeAt(f, m);
    SubtreeCloses(f, n, n);
  }

  lemma ReplaceEach(h: Heap, f: Forest, n: Id, t: Id, x: HtmlNode, m: Id)
    requires WF(f) && Realizes(h, f) && CanUnlink(h, n) && n in f.par && t !in f.par && t !in h && t != TOP && TOP !in h
    requires WF(Replaced(f, n, t, x)) && m in Replaced(f, n, t, x).par
    ensures n in h && CanUnlink(NewNode(h, t, x), n)
    ensures m in NewNode(h, t, x) && Placed(Replaced(f, n, t, x), m)
    ensures Relink(NewNode(h, t, x), n, t)[m] == Wanted(Replaced(f, n, t, x), m)
  {
    hide WF, Erased, Inserted, Wanted, Relink, Placed, Realizes, Replaced, Domains;
    ReplacedKeys(f, n, t, x);
    Neighbours(h, f, n, n);
    NodePlace(h, f, n);
    PlaceLinks(h, f, n);
    NotLinked(h, n, t);
    RelinkAt(NewNode(h, t, x), n, t, m);
    if m == t {
      ReplacedNew(f, n, t, x);
    } else {
      ReplacedFields(f, n, t, x, m);
      Neighbours(h, f, n, m);
    }
  }

  lemma ReplacedKeys(f: Forest, n: Id, t: Id, x: HtmlNode)
    requires WF(f) && n in f.par && t !in f.par && t != TOP
    ensures var g := Replaced(f, n, t, x);
            g.par.Keys == f.par.Keys - Subtree(f, n) + {t} && Erased(f, n).par.Keys == f.par.Keys - Subtree(f, n)
            && g.bound == f.bound + 1
  {
    hide Subtree, Inserted, Erased;
    ReplaceReady(f, n, t);
    ErasedKeys(f, n);
    InsertedKnows(Erased(f, n), f.par[n], f.idx[n], t, x);
  }

  /** A free number is nobody's neighbour. */
  lemma NotLinked(h: Heap, n: Id, t: Id)
    requires CanUnlink(h, n) && t !in h && t != TOP
    requires h[n].parent != TOP ==> h[n].parent in h
    ensures h[n].prev != t && h[n].next != t && h[n].parent != t && t != n
  {
  }

  lemma ReplacedBracketed(f: Forest, n: Id, t: Id, x: HtmlNode, head: Id, feet: Id)
    requires WF(f) && Bracketed(f, head, feet) && n in f.par && n != head && n != feet && t !in f.par && t != TOP
    ensures TOP in Replaced(f, n, t, x).kids && Bracketed(Replaced(f, n, t, x), head, feet)
  {
    hide Subtree, Erased, WF, Inserted;
    ReplaceReady(f, n, t);
    ErasedBracketed(f, n, head, feet);
    NotSentinelKid(f, n, head, feet);
    if f.par[n] == TOP {
      InnerAtTop(f, head, feet, n);
    }
    InsertedKnows(Erased(f, n), f.par[n], f.idx[n], t, x);
    InsertedBracketed(Erased(f, n), f.par[n], f.idx[n], t, x, head, feet);
  }

  lemma NotSentinelKid(f: Forest, n: Id, head: Id, feet: Id)
    requires WF(f) && Bracketed(f, head, feet) && n in f.par
    ensures f.par[n] != head && f.par[n] != feet
  {
    assert Placed(f, n);
  }

  /** What is left of the links is as if only the assignments of replace had
      been made. */
  ghost predicate Relinked(h: Heap, g: Heap, n: Id, t: Id, x: HtmlNode)
    requires CanUnlink(NewNode(h, t, x), n)
  {
    forall m {:trigger g[m]} | m in g ::
      m in NewNode(h, t, x) && t in NewNode(h, t, x) && g[m] == Relink(NewNode(h, t, x), n, t)[m]
  }

  /** The links that are left when the leaf t stands where the subtree at n
      was. */
  lemma ReplaceConsistent(h: Heap, g: Heap, f: Forest, n: Id, t: Id, x: HtmlNode, head: Id, feet: Id)
    requires Consistent(h, f, head, feet) && n in h && n != head && n != feet && t == f.bound
    requires CanUnlink(NewNode(h, t, x), n) && n in f.par && t !in f.par && t != TOP
    requires g.Keys == h.Keys - Subtree(f, n) + {t}
    requires Relinked(h, g, n, t, x)
    ensures Consistent(g, Replaced(f, n, t, x), head, feet)
  {
    hide WF, Erased, Wanted, Relink, Placed, Bracketed, Domains, CanUnlink, Subtree, Replaced, Realizes, NewNode;
    NodeKnown(h, f, head, feet, n);
    UnlinkReady(h, f, n, head, feet);
    ReplacedIs(f, n, t, x);
    ReplacedKeys(f, n, t, x);
    ReplacedBracketed(f, n, t, x, head, feet);
    HeapKeys(h, f);
    WFDomains(Replaced(f, n, t, x));
    forall m | m in Replaced(f, n, t, x).par
      ensures Placed(Replaced(f, n, t, x), m) && m in g && g[m] == Wanted(Replaced(f, n, t, x), m)
    {
      ReplaceEach(h, f, n, t, x, m);
    }
    RealizesWhen(g, Replaced(f, n, t, x));
    BoundAbove(h, f, head, feet);
  }

  lemma HeapKeys(h: Heap, f: Forest)
    requires Realizes(h, f)
    ensures h.Keys == f.par.Keys
  {
  }

  lemma BoundAbove(h: Heap, f: Forest, head: Id, feet: Id)
    requires Consistent(h, f, head, feet)
    ensures forall i {:trigger i in h} | i in h :: i < f.bound
  {
  }

  lemma RealizesWhen(g: Heap, f: Forest)
    requires Domains(f) && g.Keys == f.par.Keys
    requires forall m | m in f.par :: Placed(f, m) && g[m] == Wanted(f, m)
    ensures Realizes(g, f)
  {
    hide Wanted, Placed;
  }

  /** That the subtree is freed in between makes no difference. */
  lemma RelinkReady(h: Heap, f: Forest, n: Id, t: Id, x: HtmlNode, S: set<Id>)
    requires WF(f) && Realizes(h, f) && n in h && CanUnlink(h, n) && t !in h && t != TOP && TOP !in h && S <= h.Keys
    ensures CanUnlink(NewNode(h, t, x), n)
    ensures var h1 := NewNode(Stripped(h, S), t, x);
            && CanUnlink(h1, n) && h1[n].prev != n && TOP !in h1 && t in h1
            && var g := Relink(h1, n, t) - S;
               && g.Keys == h.Keys - S + {t}
               && Relinked(h, g, n, t, x)
  {
    hide WF, Realizes, Relink;
    NeighboursKnown(h, f, n);
    var h0, h1 := NewNode(h, t, x), NewNode(Stripped(h, S), t, x);
    SameLinks(h, n, t, x, S);
    NotLinked(h, n, t);
    var g := Relink(h1, n, t) - S;
    assert h1.Keys == h.Keys + {t};
    forall m | m in g
      ensures m in h0 && g[m] == Relink(h0, n, t)[m]
    {
      RelinkAt(h0, n, t, m);
      RelinkAt(h1, n, t, m);
    }
  }

  lemma SameLinks(h: Heap, n: Id, t: Id, x: HtmlNode, S: set<Id>)
    requires n in h && CanUnlink(h, n) && t !in h && S <= h.Keys
    ensures var h0, h1 := NewNode(h, t, x), NewNode(Stripped(h, S), t, x);
            && CanUnlink(h0, n) && CanUnlink(h1, n) && n != t
            && h0[n] == h[n] && h1[n].prev == h[n].prev && h1[n].next == h[n].next && h1[n].parent == h[n].parent
  {
  }
}
