/** The links of libhtmlparser/tree.h as a value: what an ordered forest asks of
    every node, and that the assignments of each operation bring it about. */
module HtmlLinks {
  import opened HtmlNodes
  import opened Forests
  import opened DomModel
  import opened Seqs

  // ----- the links as a value ---------------------------------------------

  /** The contents of a node, with TOP for the null pointer. */
  datatype Fields = Fields(data: HtmlNode, parent: Id, first: Id, last: Id, prev: Id, next: Id)

  /** The contents of all nodes at one moment. */
  type Heap = map<Id, Fields>

  ghost function FirstOf(s: seq<Id>): Id {
    if s == [] then TOP else s[0]
  }

  ghost function LastOf(s: seq<Id>): Id {
    if s == [] then TOP else s[|s|-1]
  }

  /** The contents that f asks of n. */
  ghost function Wanted(f: Forest, n: Id): Fields
    requires Domains(f) && n in f.par && Placed(f, n)
  {
    var ks, i := f.kids[f.par[n]], f.idx[n];
    Fields(f.data[n], f.par[n], FirstOf(f.kids[n]), LastOf(f.kids[n]),
           if i == 0 then TOP else ks[i-1],
           if i + 1 == |ks| then TOP else ks[i+1])
  }

  /** The nodes' contents are those that f asks for. */
  ghost predicate Realizes(h: Heap, f: Forest) {
    && Domains(f)
    && h.Keys == f.par.Keys
    && (forall n {:trigger h[n]} | n in f.par :: Placed(f, n) && h[n] == Wanted(f, n))
  }

  /** The top level runs from head to feet, which have no children. */
  ghost predicate Bracketed(f: Forest, head: Id, feet: Id)
    requires TOP in f.kids
  {
    && head in f.kids && feet in f.kids && f.kids[head] == [] && f.kids[feet] == []
    && var tops := f.kids[TOP];
       |tops| >= 2 && tops[0] == head && tops[|tops|-1] == feet
  }

  /** The links h are those of the forest f between head and feet; numbers up
      from the bound are free. */
  ghost predicate Consistent(h: Heap, f: Forest, head: Id, feet: Id) {
    && WF(f)
    && Realizes(h, f)
    && Bracketed(f, head, feet)
    && forall i {:trigger i in h} | i in h :: i < f.bound
  }

  const HEAD: Id := 1
  const FEET: Id := 2

  ghost const EMPTY_FOREST: Forest :=
    Forest(
      map[TOP := [HEAD, FEET], HEAD := [], FEET := []],
      map[HEAD := TOP, FEET := TOP],
      map[HEAD := 0, FEET := 1],
      map[HEAD := ROOT, FEET := ROOT],
      map[TOP := 0, HEAD := 1, FEET := 1],
      3)

  ghost const EMPTY_HEAP: Heap :=
    map[HEAD := Fields(ROOT, TOP, TOP, TOP, TOP, FEET), FEET := Fields(ROOT, TOP, TOP, TOP, HEAD, TOP)]

  lemma EmptyTree()
    ensures Consistent(EMPTY_HEAP, EMPTY_FOREST, HEAD, FEET)
  {
    var f := EMPTY_FOREST;
    assert Domains(f);
    assert Listed(f, TOP, 0) && Listed(f, TOP, 1);
    assert Placed(f, HEAD) && Placed(f, FEET);
  }

  lemma NeighboursKnown(h: Heap, f: Forest, n: Id)
    requires WF(f) && Realizes(h, f) && n in h
    ensures var w := h[n];
            && (w.prev != TOP ==> w.prev in h && w.prev != n)
            && (w.next != TOP ==> w.next in h && w.next != n)
            && (w.first != TOP ==> w.first in h && w.first != n)
            && (w.last != TOP ==> w.last in h && w.last != n)
            && (w.parent != TOP ==> w.parent in h && w.parent != n)
  {
    hide WF, Wanted, Placed;
    PlaceLinks(h, f, n);
    if f.kids[n] != [] {
      KidPlace(f, n, 0);
      KidPlace(f, n, |f.kids[n]| - 1);
    }
  }

  // ----- insertion --------------------------------------------------------

  /** What insertion at k below p means for the links of an older node m. */
  lemma InsertedFields(f: Forest, p: Id, k: nat, n: Id, x: HtmlNode, m: Id)
    requires Domains(f) && p in f.kids && k <= |f.kids[p]| && n !in f.par && n != TOP
    requires m in f.par && Placed(f, m)
    requires Domains(Inserted(f, p, k, n, x)) && Placed(Inserted(f, p, k, n, x), m)
    ensures var was, now := Wanted(f, m), Wanted(Inserted(f, p, k, n, x), m);
            now == Fields(was.data, was.parent,
                          if m == p && k == 0 then n else was.first,
                          if m == p && k == |f.kids[p]| then n else was.last,
                          if f.par[m] == p && f.idx[m] == k then n else was.prev,
                          if f.par[m] == p && f.idx[m] + 1 == k then n else was.next)
  {
    var g := Inserted(f, p, k, n, x);
    if m == p {
      SpliceAt(f.kids[p], k, [n], 0);
      SpliceAt(f.kids[p], k, [n], |f.kids[p]|);
    }
    if f.par[m] == p {
      if g.idx[m] > 0 {
        SpliceAt(f.kids[p], k, [n], g.idx[m] - 1);
      }
      if g.idx[m] < |f.kids[p]| {
        SpliceAt(f.kids[p], k, [n], g.idx[m] + 1);
      }
    }
  }

  /** And for the new node. */
  lemma InsertedNewFields(f: Forest, p: Id, k: nat, n: Id, x: HtmlNode)
    requires Domains(f) && p in f.kids && k <= |f.kids[p]| && n !in f.par && n != TOP
    requires Domains(Inserted(f, p, k, n, x)) && Placed(Inserted(f, p, k, n, x), n)
    ensures Wanted(Inserted(f, p, k, n, x), n)
         == Fields(x, p, TOP, TOP,
                   if k == 0 then TOP else f.kids[p][k-1],
                   if k == |f.kids[p]| then TOP else f.kids[p][k])
  {
    if k > 0 {
      SpliceAt(f.kids[p], k, [n], k - 1);
    }
    if k < |f.kids[p]| {
      SpliceAt(f.kids[p], k, [n], k + 1);
    }
  }

  lemma InsertedBracketed(f: Forest, p: Id, k: nat, n: Id, x: HtmlNode, head: Id, feet: Id)
    requires Domains(f) && Bracketed(f, head, feet)
    requires p in f.kids && k <= |f.kids[p]| && n !in f.par && n != TOP
    requires p != head && p != feet && (p == TOP ==> 0 < k < |f.kids[p]|)
    ensures Bracketed(Inserted(f, p, k, n, x), head, feet)
  {
    SpliceAt(f.kids[p], k, [n], 0);
    SpliceAt(f.kids[p], k, [n], |f.kids[p]|);
  }

  // One assignment to a link.

  ghost function SetParent(h: Heap, n: Id, v: Id): Heap requires n in h { h[n := h[n].(parent := v)] }

  ghost function SetFirst(h: Heap, n: Id, v: Id): Heap requires n in h { h[n := h[n].(first := v)] }

  ghost function SetLast(h: Heap, n: Id, v: Id): Heap requires n in h { h[n := h[n].(last := v)] }

  ghost function SetPrev(h: Heap, n: Id, v: Id): Heap requires n in h { h[n := h[n].(prev := v)] }

  ghost function SetNext(h: Heap, n: Id, v: Id): Heap requires n in h { h[n := h[n].(next := v)] }

  /** A node as its constructor leaves it. */
  ghost function NewNode(h: Heap, n: Id, x: HtmlNode): Heap {
    h[n := Fields(x, TOP, TOP, TOP, TOP, TOP)]
  }

  /** The assignments of append_child. */
  ghost function LinkLast(h: Heap, p: Id, n: Id): Heap
    requires p in h && n in h && (h[p].last != TOP ==> h[p].last in h)
  {
    var last := h[p].last;
    var h1 := SetParent(h, n, p);
    var h2 := if last != TOP then SetNext(h1, last, n) else SetFirst(h1, p, n);
    SetNext(SetLast(SetPrev(h2, n, last), p, n), n, TOP)
  }

  lemma LinkLastAt(h: Heap, f: Forest, p: Id, n: Id, x: HtmlNode, m: Id)
    requires Domains(f) && p in f.par && n !in f.par && n != TOP && p in h && n !in h
    requires Domains(Appended(f, p, n, x)) && m in Appended(f, p, n, x).par
    requires m != n ==> Placed(f, m) && m in h && h[m] == Wanted(f, m)
    requires h[p].last == LastOf(f.kids[p])
    requires |f.kids[p]| > 0 ==> Listed(f, p, |f.kids[p]| - 1) && h[p].last in h && h[p].last != p
    requires m != n && f.par[m] == p && f.idx[m] == |f.kids[p]| - 1 ==> m == h[p].last
    ensures m in LinkLast(NewNode(h, n, x), p, n)
    ensures Placed(Appended(f, p, n, x), m)
    ensures LinkLast(NewNode(h, n, x), p, n)[m] == Wanted(Appended(f, p, n, x), m)
  {
    InsertedPlaced(f, p, |f.kids[p]|, n, x, m);
    if m == n {
      InsertedNewFields(f, p, |f.kids[p]|, n, x);
    } else {
      InsertedFields(f, p, |f.kids[p]|, n, x, m);
    }
  }

  lemma LinkLastKeys(h: Heap, p: Id, n: Id, x: HtmlNode)
    requires p in h && (h[p].last != TOP ==> h[p].last in h) && n !in h
    ensures LinkLast(NewNode(h, n, x), p, n).Keys == h.Keys + {n}
  {
  }

  lemma AppendedDomain(f: Forest, p: Id, n: Id, x: HtmlNode)
    requires Domains(f) && p in f.kids && n !in f.par && n != TOP
    ensures Appended(f, p, n, x).par.Keys == f.par.Keys + {n}
  {
  }

  lemma LinkLastEach(h: Heap, f: Forest, p: Id, n: Id, x: HtmlNode, m: Id)
    requires WF(f) && Realizes(h, f) && p in h && n !in h && n != TOP
    requires Domains(Appended(f, p, n, x)) && m in Appended(f, p, n, x).par
    ensures h[p].last != TOP ==> h[p].last in h
    ensures m in LinkLast(NewNode(h, n, x), p, n)
    ensures Placed(Appended(f, p, n, x), m)
    ensures LinkLast(NewNode(h, n, x), p, n)[m] == Wanted(Appended(f, p, n, x), m)
  {
    NeighboursKnown(h, f, p);
    assert h[p] == Wanted(f, p) && Placed(f, p);
    assert h[p].last == LastOf(f.kids[p]);
    if f.kids[p] != [] {
      assert Listed(f, p, |f.kids[p]| - 1);
    }
    if m != n {
      assert h[m] == Wanted(f, m) && Placed(f, m);
    }
    LinkLastAt(h, f, p, n, x, m);
  }

  lemma LinkLastRealizes(h: Heap, f: Forest, p: Id, n: Id, x: HtmlNode)
    requires WF(f) && Realizes(h, f) && p in h && n !in h && n != TOP
    ensures WF(Appended(f, p, n, x))
    ensures h[p].last != TOP ==> h[p].last in h
    ensures Realizes(LinkLast(NewNode(h, n, x), p, n), Appended(f, p, n, x))
  {
    InsertedWF(f, p, |f.kids[p]|, n, x);
    NeighboursKnown(h, f, p);
    LinkLastKeys(h, p, n, x);
    AppendedDomain(f, p, n, x);
    forall m | m in Appended(f, p, n, x).par
      ensures Placed(Appended(f, p, n, x), m)
           && LinkLast(NewNode(h, n, x), p, n)[m] == Wanted(Appended(f, p, n, x), m)
    {
      LinkLastEach(h, f, p, n, x, m);
    }
  }

  lemma NodeKnown(h: Heap, f: Forest, head: Id, feet: Id, p: Id)
    requires Consistent(h, f, head, feet) && p in h
    ensures WF(f) && Domains(f) && p in f.kids && p in f.par && p in f.idx && p != TOP
    ensures f.bound !in h && f.bound !in f.par && TOP !in h
    ensures Realizes(h, f) && Bracketed(f, head, feet)
  {
  }

  lemma ConsistentParts(h: Heap, f: Forest, head: Id, feet: Id)
    requires Consistent(h, f, head, feet)
    ensures WF(f) && Realizes(h, f) && TOP in f.kids && Bracketed(f, head, feet)
  {
  }

  lemma FreeBound(h: Heap, f: Forest, head: Id, feet: Id)
    requires Consistent(h, f, head, feet)
    ensures f.bound != TOP
  {
  }

  lemma DataLinks(h: Heap, f: Forest, n: Id)
    requires Realizes(h, f) && n in h
    ensures n in f.data && h[n].data == f.data[n]
  {
    assert h[n] == Wanted(f, n);
  }

  lemma AppendBounded(h: Heap, p: Id, x: HtmlNode, b: Id, g: Forest)
    requires p in h && (h[p].last != TOP ==> h[p].last in h) && b !in h
    requires (forall i {:trigger i in h} | i in h :: i < b) && g.bound == b + 1
    ensures forall i {:trigger i in LinkLast(NewNode(h, b, x), p, b)} | i in LinkLast(NewNode(h, b, x), p, b) ::
            i < g.bound
  {
    LinkLastKeys(h, p, b, x);
  }

  lemma AppendedBound(f: Forest, p: Id, n: Id, x: HtmlNode)
    requires Domains(f) && p in f.kids && n !in f.par && n != TOP
    ensures Appended(f, p, n, x).bound == f.bound + 1
    ensures Appended(f, p, n, x) == Inserted(f, p, |f.kids[p]|, n, x)
  {
  }

  lemma LinkLastConsistent(h: Heap, f: Forest, p: Id, x: HtmlNode, head: Id, feet: Id)
    requires Consistent(h, f, head, feet) && p in h && p != head && p != feet
    ensures f.bound !in h && f.bound != TOP
    ensures h[p].last != TOP ==> h[p].last in h && h[p].last != p
    ensures Domains(f) && p in f.kids && f.bound !in f.par
    ensures Consistent(LinkLast(NewNode(h, f.bound, x), p, f.bound), Appended(f, p, f.bound, x), head, feet)
  {
    hide WF, Realizes, Bracketed, Domains, Wanted, Placed, Appended, Inserted, LinkLast, NewNode;
    NodeKnown(h, f, head, feet, p);
    NodeKnown(h, f, head, feet, p);
    NeighboursKnown(h, f, p);
    LinkLastRealizes(h, f, p, f.bound, x);
    AppendedBound(f, p, f.bound, x);
    InsertedBracketed(f, p, |f.kids[p]|, f.bound, x, head, feet);
    AppendBounded(h, p, x, f.bound, Appended(f, p, f.bound, x));
  }

  /** The assignments of insert: n in front of q. */
  ghost function LinkBefore(h: Heap, q: Id, n: Id): Heap
    requires q in h && n in h
    requires if h[q].prev == TOP then h[q].parent in h else h[q].prev in h
  {
    var p, v := h[q].parent, h[q].prev;
    var h1 := SetPrev(SetPrev(SetNext(SetParent(h, n, p), n, q), n, v), q, n);
    if v == TOP then SetFirst(h1, p, n) else SetNext(h1, v, n)
  }

  lemma LinkBeforeIs(h: Heap, q: Id, n: Id)
    requires q in h && n in h
    requires if h[q].prev == TOP then h[q].parent in h else h[q].prev in h
    ensures var p, v := h[q].parent, h[q].prev;
            LinkBefore(h, q, n) ==
              var h1 := SetPrev(SetPrev(SetNext(SetParent(h, n, p), n, q), n, v), q, n);
              if v == TOP then SetFirst(h1, p, n) else SetNext(h1, v, n)
    ensures LinkBefore(h, q, n).Keys == h.Keys
  {
  }

  lemma LinkBeforeKeys(h: Heap, q: Id, n: Id, x: HtmlNode)
    requires q in h && n !in h
    requires if h[q].prev == TOP then h[q].parent in h else h[q].prev in h
    ensures LinkBefore(NewNode(h, n, x), q, n).Keys == h.Keys + {n}
  {
  }

  lemma SamePlace(f: Forest, m: Id, q: Id)
    requires Domains(f) && m in f.par && q in f.par && Placed(f, m) && Placed(f, q)
    requires f.par[m] == f.par[q] && f.idx[m] == f.idx[q]
    ensures m == q
  {
  }

  lemma LinkBeforeAt(h: Heap, f: Forest, p: Id, k: nat, q: Id, n: Id, x: HtmlNode, m: Id)
    requires Domains(f) && p in f.kids && k < |f.kids[p]| && n !in f.par && n != TOP && n !in h
    requires q in h && q != n && q in f.par && f.par[q] == p && f.idx[q] == k && Placed(f, q)
    requires h[q].parent == p && h[q].prev == (if k == 0 then TOP else f.kids[p][k-1]) && f.kids[p][k] == q
    requires if k == 0 then p in h && p != q
             else var v := h[q].prev;
                  v != TOP && v in h && v != q && v in f.par && Placed(f, v) && f.par[v] == p && f.idx[v] + 1 == k
    requires Domains(Inserted(f, p, k, n, x)) && m in Inserted(f, p, k, n, x).par
    requires m != n ==> m in f.par && Placed(f, m) && m in h && h[m] == Wanted(f, m)
    ensures m in LinkBefore(NewNode(h, n, x), q, n)
    ensures Placed(Inserted(f, p, k, n, x), m)
    ensures LinkBefore(NewNode(h, n, x), q, n)[m] == Wanted(Inserted(f, p, k, n, x), m)
  {
    hide Inserted, Placed, Wanted;
    InsertedPlaced(f, p, k, n, x, m);
    if m == n {
      InsertedNewFields(f, p, k, n, x);
    } else {
      InsertedFields(f, p, k, n, x, m);
      if f.par[m] == p && f.idx[m] == k {
        SamePlace(f, m, q);
      } else if f.par[m] == p && f.idx[m] + 1 == k {
        SamePlace(f, m, h[q].prev);
      }
    }
  }

  // ----- flattening -------------------------------------------------------

  ghost function FirstLifted(f: Forest, n: Id, m: Id): Id
    requires m in f.kids
  {
    if m == n then TOP else FirstOf(f.kids[m])
  }

  ghost function LastLifted(f: Forest, p: Id, k: nat, n: Id, m: Id): Id
    requires m in f.kids && n in f.kids && p in f.kids
  {
    if m == n then TOP else if m == p && k == |f.kids[p]| then LastOf(f.kids[n]) else LastOf(f.kids[m])
  }

  lemma LiftedKids(f: Forest, g: Forest, p: Id, k: nat, n: Id, m: Id)
    requires IsLifted(f, g, p, k, n) && f.kids[n] != [] && k > 0 && m in f.kids
    ensures m in g.kids
    ensures FirstOf(g.kids[m]) == FirstLifted(f, n, m)
    ensures LastOf(g.kids[m]) == LastLifted(f, p, k, n, m)
  {
    var ks, cs := f.kids[p], f.kids[n];
    if m == p {
      SpliceAt(ks, k, cs, 0);
      SpliceAt(ks, k, cs, |ks| + |cs| - 1);
    }
  }

  ghost function PrevAt(ks: seq<Id>, i: nat): Id
    requires i < |ks|
  {
    if i == 0 then TOP else ks[i-1]
  }

  ghost function NextAt(ks: seq<Id>, i: nat): Id
    requires i < |ks|
  {
    if i + 1 == |ks| then TOP else ks[i+1]
  }

  lemma WantedIs(f: Forest, m: Id)
    requires Domains(f) && m in f.par && Placed(f, m)
    ensures m in f.kids && f.par[m] in f.kids && f.idx[m] < |f.kids[f.par[m]]|
    ensures Wanted(f, m) == Fields(f.data[m], f.par[m], FirstOf(f.kids[m]), LastOf(f.kids[m]),
                                   PrevAt(f.kids[f.par[m]], f.idx[m]), NextAt(f.kids[f.par[m]], f.idx[m]))
  {
  }

  /** The siblings of what stands at place i of a spliced list. */
  lemma SpliceSiblings(ks: seq<Id>, k: nat, cs: seq<Id>, i: nat)
    requires 0 < k <= |ks| && cs != [] && i < |ks| + |cs|
    ensures PrevAt(Splice(ks, k, cs), i)
         == if i < k then PrevAt(ks, i)
            else if i == k then ks[k-1]
            else if i < k + |cs| then PrevAt(cs, i - k)
            else if i == k + |cs| then cs[|cs|-1]
            else PrevAt(ks, i - |cs|)
    ensures NextAt(Splice(ks, k, cs), i)
         == if i < k - 1 then NextAt(ks, i)
            else if i == k - 1 then cs[0]
            else if i < k + |cs| - 1 then NextAt(cs, i - k)
            else if i == k + |cs| - 1 then (if k == |ks| then TOP else ks[k])
            else NextAt(ks, i - |cs|)
  {
    if i > 0 {
      SpliceAt(ks, k, cs, i - 1);
    }
    if i + 1 < |ks| + |cs| {
      SpliceAt(ks, k, cs, i + 1);
    }
  }

  /** What flattening n means for the links of m. */
  lemma LiftedFields(f: Forest, g: Forest, p: Id, k: nat, n: Id, m: Id)
    requires IsLifted(f, g, p, k, n) && f.data == g.data
    requires m in f.par && Placed(f, m) && Placed(g, m) && Placed(f, n)
    requires p == f.par[n] && k == f.idx[n] + 1
    requires f.kids[n] != []
    ensures k <= |f.kids[p]|
    ensures var was, now, cs := Wanted(f, m), Wanted(g, m), f.kids[n];
            now == Fields(was.data,
                          if f.par[m] == n then p else was.parent,
                          if m == n then TOP else was.first,
                          if m == n then TOP else if m == p && k == |f.kids[p]| then cs[|cs|-1] else was.last,
                          if f.par[m] == n && f.idx[m] == 0 then n
                          else if f.par[m] == p && f.idx[m] == k then cs[|cs|-1] else was.prev,
                          if m == n then cs[0]
                          else if f.par[m] == n && f.idx[m] + 1 == |cs| then
                            (if k == |f.kids[p]| then TOP else f.kids[p][k])
                          else was.next)
  {
    LiftedKids(f, g, p, k, n, m);
    WantedIs(f, m);
    WantedIs(g, m);
    if f.par[m] == p && f.idx[m] + 1 == k {
      SamePlace(f, m, n);
    }
    if g.par[m] == p {
      assert f.kids[p][k-1] == n;
      SpliceSiblings(f.kids[p], k, f.kids[n], g.idx[m]);
    } else {
      assert g.kids[g.par[m]] == f.kids[f.par[m]];
    }
  }

  /** The loop of flatten, after i rounds. */
  ghost function Adopt(h: Heap, ks: seq<Id>, p: Id, i: nat): (r: Heap)
    requires i <= |ks| && forall j :: 0 <= j < i ==> ks[j] in h
    ensures r.Keys == h.Keys
  {
    if i == 0 then h else SetParent(Adopt(h, ks, p, i - 1), ks[i-1], p)
  }

  lemma {:induction false} AdoptAt(h: Heap, ks: seq<Id>, p: Id, i: nat, m: Id)
    requires i <= |ks| && (forall j :: 0 <= j < i ==> ks[j] in h) && m in h
    ensures m in Adopt(h, ks, p, i)
    ensures m !in ks[..i] ==> Adopt(h, ks, p, i)[m] == h[m]
    ensures Adopt(h, ks, p, i)[m].next == h[m].next
    ensures Adopt(h, ks, p, i)[m] == if m in ks[..i] then h[m].(parent := p) else h[m]
    decreases i
  {
    if i > 0 {
      AdoptAt(h, ks, p, i - 1, m);
      assert ks[..i] == ks[..i-1] + [ks[i-1]];
    }
  }

  lemma AdoptNone(h: Heap, ks: seq<Id>, p: Id)
    ensures Adopt(h, ks, p, 0) == h
  {
  }

  lemma AdoptOne(h: Heap, ks: seq<Id>, p: Id, i: nat)
    requires i < |ks| && forall j :: 0 <= j <= i ==> ks[j] in h
    ensures ks[i] in Adopt(h, ks, p, i) && Adopt(h, ks, p, i + 1) == SetParent(Adopt(h, ks, p, i), ks[i], p)
  {
  }

  /** What flatten relies on: n has children, and its links lead to nodes. */
  ghost predicate CanFlatten(h: Heap, ks: seq<Id>, n: Id) {
    && n in h && ks != [] && h[n].first == ks[0] && h[n].last == ks[|ks|-1]
    && (if h[n].next != TOP then h[n].next in h else h[n].parent in h)
    && (forall j :: 0 <= j < |ks| ==> ks[j] in h && ks[j] != n)
  }

  /** The assignments of flatten; ks are the children of n. */
  ghost function LinkFlat(h: Heap, ks: seq<Id>, n: Id): (r: Heap)
    requires CanFlatten(h, ks, n)
    ensures r.Keys == h.Keys
  {
    var w := h[n];
    var h0 := Adopt(h, ks, w.parent, |ks|);
    var h1 := if w.next != TOP then SetPrev(SetNext(h0, w.last, w.next), w.next, w.last)
              else SetLast(h0, w.parent, w.last);
    SetLast(SetFirst(SetPrev(SetNext(h1, n, w.first), w.first, n), n, TOP), n, TOP)
  }

  lemma NoTop(h: Heap, ks: seq<Id>, n: Id)
    requires CanFlatten(h, ks, n) && TOP !in h
    ensures n in h && h[n].last != TOP && h[n].first != TOP && h[n].last != n && h[n].first != n
    ensures h[n].next == TOP ==> h[n].parent != TOP
  {
  }

  lemma KidsOf(f: Forest, n: Id, m: Id)
    requires WF(f) && n in f.kids && m in f.par
    ensures m in f.kids[n] <==> f.par[m] == n
    ensures f.par[m] == n ==> f.idx[m] < |f.kids[n]| && f.kids[n][f.idx[m]] == m
  {
    assert Placed(f, m);
    if m in f.kids[n] {
      var i :| 0 <= i < |f.kids[n]| && f.kids[n][i] == m;
      KidFacts(f, n, i);
    }
  }

  /** What the assignments of flatten leave in m, by what m is. */
  lemma LinkFlatAt(h: Heap, ks: seq<Id>, n: Id, m: Id)
    requires CanFlatten(h, ks, n) && m in h
    requires h[n].parent !in ks && h[n].next !in ks && h[n].parent != n && h[n].next != n
    requires h[n].next != TOP ==> h[n].next != h[n].parent
    ensures var w, r := h[n], LinkFlat(h, ks, n)[m];
            r == Fields(h[m].data,
                        if m in ks then w.parent else h[m].parent,
                        if m == n then TOP else h[m].first,
                        if m == n then TOP else if m == w.parent && w.next == TOP then w.last else h[m].last,
                        if m == w.first then n else if m == w.next && w.next != TOP then w.last else h[m].prev,
                        if m == n then w.first else if m == w.last && w.next != TOP then w.next else h[m].next)
  {
    AdoptAt(h, ks, h[n].parent, |ks|, m);
    assert ks[..|ks|] == ks;
    assert ks[0] in ks && ks[|ks|-1] in ks && n !in ks;
  }

  lemma LinkBeforeEach(h: Heap, f: Forest, q: Id, n: Id, x: HtmlNode, m: Id)
    requires WF(f) && Realizes(h, f) && q in h && n !in h && n != TOP
    requires f.par[q] == TOP ==> f.idx[q] > 0
    requires Domains(Inserted(f, f.par[q], f.idx[q], n, x)) && m in Inserted(f, f.par[q], f.idx[q], n, x).par
    ensures if h[q].prev == TOP then h[q].parent in h else h[q].prev in h
    ensures m in LinkBefore(NewNode(h, n, x), q, n)
    ensures Placed(Inserted(f, f.par[q], f.idx[q], n, x), m)
    ensures LinkBefore(NewNode(h, n, x), q, n)[m] == Wanted(Inserted(f, f.par[q], f.idx[q], n, x), m)
  {
    var p, k := f.par[q], f.idx[q];
    NeighboursKnown(h, f, q);
    assert h[q] == Wanted(f, q) && Placed(f, q);
    if k > 0 {
      KidFacts(f, p, k - 1);
      assert Placed(f, f.kids[p][k-1]);
    }
    if m != n {
      assert h[m] == Wanted(f, m) && Placed(f, m);
    }
    LinkBeforeAt(h, f, p, k, q, n, x, m);
  }

  lemma InsertedDomain(f: Forest, p: Id, k: nat, n: Id, x: HtmlNode)
    requires Domains(f) && p in f.kids && k <= |f.kids[p]| && n !in f.par && n != TOP
    ensures Inserted(f, p, k, n, x).par.Keys == f.par.Keys + {n}
    ensures Inserted(f, p, k, n, x).bound == f.bound + 1
  {
  }

  lemma PlaceOf(f: Forest, q: Id)
    requires WF(f) && q in f.par
    ensures f.par[q] in f.kids && f.idx[q] < |f.kids[f.par[q]]| && f.kids[f.par[q]][f.idx[q]] == q && q != f.par[q]
  {
    assert Placed(f, q);
  }

  lemma LinkBeforeRealizes(h: Heap, f: Forest, q: Id, n: Id, x: HtmlNode)
    requires WF(f) && Realizes(h, f) && q in h && n !in h && n != TOP
    requires f.par[q] == TOP ==> f.idx[q] > 0
    ensures if h[q].prev == TOP then h[q].parent in h else h[q].prev in h
    ensures f.par[q] in f.kids && f.idx[q] < |f.kids[f.par[q]]|
    ensures WF(Inserted(f, f.par[q], f.idx[q], n, x))
    ensures Realizes(LinkBefore(NewNode(h, n, x), q, n), Inserted(f, f.par[q], f.idx[q], n, x))
  {
    hide Inserted, LinkBefore, Wanted, Placed;
    PlaceOf(f, q);
    InsertedWF(f, f.par[q], f.idx[q], n, x);
    InsertedDomain(f, f.par[q], f.idx[q], n, x);
    LinkBeforeEach(h, f, q, n, x, n);
    forall m | m in Inserted(f, f.par[q], f.idx[q], n, x).par
      ensures Placed(Inserted(f, f.par[q], f.idx[q], n, x), m)
           && m in LinkBefore(NewNode(h, n, x), q, n)
           && LinkBefore(NewNode(h, n, x), q, n)[m] == Wanted(Inserted(f, f.par[q], f.idx[q], n, x), m)
    {
      LinkBeforeEach(h, f, q, n, x, m);
    }
    LinkBeforeKeys(h, q, n, x);
  }

  lemma NotFirstAtTop(f: Forest, head: Id, feet: Id, q: Id)
    requires WF(f) && Bracketed(f, head, feet) && q in f.par && q != head
    ensures f.par[q] in f.kids && f.idx[q] < |f.kids[f.par[q]]| && f.par[q] != head && f.par[q] != feet
    ensures f.par[q] == TOP ==> f.idx[q] > 0
  {
    assert Placed(f, q);
  }

  lemma LinkBeforeConsistent(h: Heap, f: Forest, q: Id, x: HtmlNode, head: Id, feet: Id)
    requires Consistent(h, f, head, feet) && q in h && q != head
    ensures f.bound !in h && f.bound != TOP && f.bound !in f.par && TOP !in h
    ensures Domains(f) && q in f.par && q in f.idx && f.par[q] in f.kids && f.idx[q] < |f.kids[f.par[q]]|
    ensures if h[q].prev == TOP then h[q].parent in h else h[q].prev in h
    ensures Consistent(LinkBefore(NewNode(h, f.bound, x), q, f.bound),
                       Inserted(f, f.par[q], f.idx[q], f.bound, x), head, feet)
  {
    hide WF, Realizes, Bracketed, Domains, Wanted, Placed, Inserted, LinkBefore, NewNode;
    NodeKnown(h, f, head, feet, q);
    NotFirstAtTop(f, head, feet, q);
    LinkBeforeRealizes(h, f, q, f.bound, x);
    InsertedDomain(f, f.par[q], f.idx[q], f.bound, x);
    InsertedBracketed(f, f.par[q], f.idx[q], f.bound, x, head, feet);
    LinkBeforeKeys(h, q, f.bound, x);
  }

  // ----- flattening, whole ------------------------------------------------

  /** The links of n, by place. */
  lemma PlaceLinks(h: Heap, f: Forest, n: Id)
    requires WF(f) && Realizes(h, f) && n in h
    ensures n in f.par && f.par[n] in f.kids && f.idx[n] < |f.kids[f.par[n]]| && f.kids[f.par[n]][f.idx[n]] == n
    ensures n != f.par[n] && h[n] == Wanted(f, n)
    ensures var w, ks, k := h[n], f.kids[f.par[n]], f.idx[n] + 1;
            && w.parent == f.par[n] && (w.parent != TOP ==> w.parent in h)
            && w.first == FirstOf(f.kids[n]) && w.last == LastOf(f.kids[n])
            && w.next == (if k == |ks| then TOP else ks[k])
            && (k < |ks| ==> w.next != TOP && w.next in h && f.par[w.next] == f.par[n] && f.idx[w.next] == k)
            && w.prev == (if k == 1 then TOP else ks[k-2])
            && (k > 1 ==> w.prev != TOP && w.prev in h && f.par[w.prev] == f.par[n] && f.idx[w.prev] == k - 2)
  {
    assert h[n] == Wanted(f, n) && Placed(f, n);
    if f.idx[n] + 1 < |f.kids[f.par[n]]| {
      KidFacts(f, f.par[n], f.idx[n] + 1);
    }
    if f.idx[n] > 0 {
      KidFacts(f, f.par[n], f.idx[n] - 1);
    }
  }

  lemma KidPlace(f: Forest, n: Id, j: nat)
    requires WF(f) && n in f.kids && j < |f.kids[n]|
    ensures f.kids[n][j] in f.par && f.par[f.kids[n][j]] == n && f.idx[f.kids[n][j]] == j && f.kids[n][j] != n
    ensures f.kids[n][j] != TOP && (n in f.par ==> f.kids[n][j] != f.par[n])
  {
    KidFacts(f, n, j);
    if n in f.par {
      assert Placed(f, n);
    }
  }

  /** head comes first; some node comes behind it. */
  lemma TopTwo(h: Heap, f: Forest, head: Id, feet: Id)
    requires Consistent(h, f, head, feet)
    ensures TOP in f.kids && |f.kids[TOP]| >= 2 && f.kids[TOP][0] == head && head in f.kids
    ensures head in f.par && head in f.idx && f.par[head] == TOP && f.idx[head] == 0
    ensures var n := f.kids[TOP][1];
            n in f.par && n in f.idx && f.par[n] == TOP && f.idx[n] == 1 && n != TOP && n != head
  {
    hide Realizes;
    KidFacts(f, TOP, 0);
    KidFacts(f, TOP, 1);
  }

  lemma FeetIsLast(f: Forest, head: Id, feet: Id, n: Id)
    requires WF(f) && Bracketed(f, head, feet) && n in f.par && f.kids[n] != [] && f.par[n] == TOP
    ensures f.idx[n] + 1 < |f.kids[TOP]|
  {
    assert Placed(f, n);
  }

  lemma FlattenReady(h: Heap, f: Forest, head: Id, feet: Id, n: Id)
    requires WF(f) && Realizes(h, f) && Bracketed(f, head, feet) && n in h && f.kids[n] != []
    ensures CanFlatten(h, f.kids[n], n)
    ensures h[n].parent !in f.kids[n] && h[n].next !in f.kids[n] && h[n].parent != n && h[n].next != n
    ensures h[n].next != TOP ==> h[n].next != h[n].parent
  {
    hide WF, Bracketed, Wanted, Placed;
    PlaceLinks(h, f, n);
    if h[n].parent == TOP {
      FeetIsLast(f, head, feet, n);
    }
    if h[n].next != TOP {
      PlaceLinks(h, f, h[n].next);
    }
    forall j | 0 <= j < |f.kids[n]|
      ensures f.kids[n][j] in h && f.kids[n][j] != n && f.kids[n][j] != h[n].parent && f.kids[n][j] != h[n].next
    {
      KidPlace(f, n, j);
    }
  }

  /** Who n's children and neighbours are, by links and by place. */
  lemma FlattenCases(h: Heap, f: Forest, n: Id, m: Id)
    requires WF(f) && Realizes(h, f) && n in h && f.kids[n] != [] && m in h
    ensures m in f.par && m in f.idx && f.par[n] in f.kids && f.idx[n] < |f.kids[f.par[n]]|
    ensures var w, p, k, cs := h[n], f.par[n], f.idx[n] + 1, f.kids[n];
            && w.parent == p && w.first == cs[0] && w.last == cs[|cs|-1]
            && (w.next == TOP <==> k == |f.kids[p]|)
            && (k < |f.kids[p]| ==> w.next == f.kids[p][k])
            && (m in cs <==> f.par[m] == n)
            && (m == w.first <==> f.par[m] == n && f.idx[m] == 0)
            && (m == w.last <==> f.par[m] == n && f.idx[m] + 1 == |cs|)
            && (m == w.last ==> h[m].next == TOP)
            && (k < |f.kids[p]| ==> (m == w.next <==> f.par[m] == p && f.idx[m] == k))
            && (k == |f.kids[p]| && f.par[m] == p ==> f.idx[m] < k)
            && h[m] == Wanted(f, m) && h[m].parent == f.par[m]
  {
    hide WF, Wanted, Placed;
    PlaceLinks(h, f, n);
    PlaceLinks(h, f, m);
    KidsOf(f, n, m);
    KidPlace(f, n, 0);
    KidPlace(f, n, |f.kids[n]| - 1);
  }

  lemma LinkFlatEach(h: Heap, f: Forest, head: Id, feet: Id, n: Id, m: Id)
    requires WF(f) && Realizes(h, f) && Bracketed(f, head, feet) && n in h && f.kids[n] != [] && m in h
    requires WF(Flattened(f, n)) && CanFlatten(h, f.kids[n], n)
    ensures m in Flattened(f, n).par && Placed(Flattened(f, n), m)
    ensures LinkFlat(h, f.kids[n], n)[m] == Wanted(Flattened(f, n), m)
  {
    hide WF, LinkFlat, Wanted, Placed, CanFlatten, Bracketed, Lifted;
    FlattenReady(h, f, head, feet, n);
    LinkFlatAt(h, f.kids[n], n, m);
    FlattenCases(h, f, n, m);
    FlattenedFields(f, n, m);
  }

  lemma FlattenedFields(f: Forest, n: Id, m: Id)
    requires WF(f) && n in f.par && m in f.par && f.kids[n] != [] && WF(Flattened(f, n))
    ensures f.par[n] in f.kids && f.idx[n] + 1 <= |f.kids[f.par[n]]| && m in Flattened(f, n).par
    ensures Placed(f, m) && Placed(Flattened(f, n), m)
    ensures var was, now, cs, p, k := Wanted(f, m), Wanted(Flattened(f, n), m), f.kids[n], f.par[n], f.idx[n] + 1;
            now == Fields(was.data,
                          if f.par[m] == n then p else was.parent,
                          if m == n then TOP else was.first,
                          if m == n then TOP else if m == p && k == |f.kids[p]| then cs[|cs|-1] else was.last,
                          if f.par[m] == n && f.idx[m] == 0 then n
                          else if f.par[m] == p && f.idx[m] == k then cs[|cs|-1] else was.prev,
                          if m == n then cs[0]
                          else if f.par[m] == n && f.idx[m] + 1 == |cs| then
                            (if k == |f.kids[p]| then TOP else f.kids[p][k])
                          else was.next)
  {
    assert Placed(f, n) && Placed(f, m);
    FlattenedIsLifted(f, n);
    assert Placed(Flattened(f, n), m);
    LiftedFields(f, Flattened(f, n), f.par[n], f.idx[n] + 1, n, m);
  }

  lemma FlattenedBracketed(f: Forest, n: Id, head: Id, feet: Id)
    requires WF(f) && Bracketed(f, head, feet) && n in f.par && f.kids[n] != []
    ensures Bracketed(Flattened(f, n), head, feet)
    ensures Flattened(f, n).par.Keys == f.par.Keys && Flattened(f, n).bound == f.bound
  {
    var p, k, cs := f.par[n], f.idx[n] + 1, f.kids[n];
    assert Placed(f, n);
    if p == TOP {
      SpliceAt(f.kids[p], k, cs, 0);
      SpliceAt(f.kids[p], k, cs, |f.kids[p]| + |cs| - 1);
    }
  }

  lemma KidLinks(h: Heap, f: Forest, n: Id)
    requires WF(f) && Realizes(h, f) && n in h
    ensures n in f.kids && h[n].first == FirstOf(f.kids[n])
    ensures forall j :: 0 <= j < |f.kids[n]| ==> f.kids[n][j] in h && h[f.kids[n][j]].next == NextAt(f.kids[n], j)
  {
    hide WF, Wanted, Placed;
    PlaceLinks(h, f, n);
    forall j | 0 <= j < |f.kids[n]|
      ensures f.kids[n][j] in h && h[f.kids[n][j]].next == NextAt(f.kids[n], j)
    {
      KidPlace(f, n, j);
      PlaceLinks(h, f, f.kids[n][j]);
    }
  }

  lemma LinkFlatConsistent(h: Heap, f: Forest, n: Id, head: Id, feet: Id)
    requires Consistent(h, f, head, feet) && n in h
    ensures n in f.kids && n in f.par && WF(f) && TOP !in h
    ensures h[n].first == FirstOf(f.kids[n])
    ensures forall j :: 0 <= j < |f.kids[n]| ==> f.kids[n][j] in h && h[f.kids[n][j]].next == NextAt(f.kids[n], j)
    ensures if f.kids[n] == [] then Flattened(f, n) == f
            else CanFlatten(h, f.kids[n], n) && Consistent(LinkFlat(h, f.kids[n], n), Flattened(f, n), head, feet)
  {
    hide WF, Realizes, Bracketed, Domains, Wanted, Placed, LinkFlat, Lifted;
    NodeKnown(h, f, head, feet, n);
    KidLinks(h, f, n);
    if f.kids[n] != [] {
      FlattenReady(h, f, head, feet, n);
      FlattenedWF(f, n);
      FlattenedBracketed(f, n, head, feet);
      LinkFlatRealizes(h, f, n, head, feet);
    }
  }

  lemma LinkFlatRealizes(h: Heap, f: Forest, n: Id, head: Id, feet: Id)
    requires WF(f) && Realizes(h, f) && Bracketed(f, head, feet) && n in h && f.kids[n] != []
    requires CanFlatten(h, f.kids[n], n) && WF(Flattened(f, n))
    ensures Realizes(LinkFlat(h, f.kids[n], n), Flattened(f, n))
  {
    hide Wanted, Flattened, LinkFlat, Placed;
    FlattenedBracketed(f, n, head, feet);
    forall m | m in Flattened(f, n).par
      ensures Placed(Flattened(f, n), m)
           && LinkFlat(h, f.kids[n], n)[m] == Wanted(Flattened(f, n), m)
    {
      LinkFlatEach(h, f, head, feet, n, m);
    }
  }

  // ----- data -------------------------------------------------------------

  ghost function SetData(h: Heap, n: Id, x: HtmlNode): Heap requires n in h { h[n := h[n].(data := x)] }

  lemma SetDataConsistent(h: Heap, f: Forest, n: Id, x: HtmlNode, head: Id, feet: Id)
    requires Consistent(h, f, head, feet) && n in h
    ensures n in f.data && Consistent(SetData(h, n, x), WithData(f, n, x), head, feet)
  {
    hide Wanted, Placed, WF, Bracketed;
    WithDataWF(f, n, x);
    forall m | m in WithData(f, n, x).par
      ensures Placed(WithData(f, n, x), m) && SetData(h, n, x)[m] == Wanted(WithData(f, n, x), m)
    {
      SetDataAt(h, f, n, x, m);
    }
    SetDataBracketed(f, n, x, head, feet);
  }

  lemma SetDataBracketed(f: Forest, n: Id, x: HtmlNode, head: Id, feet: Id)
    requires TOP in f.kids && Bracketed(f, head, feet) && n in f.data
    ensures TOP in WithData(f, n, x).kids && Bracketed(WithData(f, n, x), head, feet)
    ensures WithData(f, n, x).par == f.par && WithData(f, n, x).bound == f.bound
  {
  }

  lemma SetDataAt(h: Heap, f: Forest, n: Id, x: HtmlNode, m: Id)
    requires WF(f) && Realizes(h, f) && n in h && m in h && WF(WithData(f, n, x))
    ensures m in WithData(f, n, x).par && Placed(WithData(f, n, x), m)
    ensures SetData(h, n, x)[m] == Wanted(WithData(f, n, x), m)
  {
    hide WF, Wanted, Realizes;
    NodePlace(h, f, m);
    NodePlace0(WithData(f, n, x), m);
    WantedIs(f, m);
    WantedIs(WithData(f, n, x), m);
  }

  lemma NodePlace(h: Heap, f: Forest, m: Id)
    requires WF(f) && Realizes(h, f) && m in h
    ensures Domains(f) && m in f.par && Placed(f, m) && h[m] == Wanted(f, m) && h.Keys == f.par.Keys
  {
    hide Wanted;
    assert h[m] == Wanted(f, m);
  }

  lemma NodePlace0(f: Forest, m: Id)
    requires WF(f) && m in f.par
    ensures Domains(f) && Placed(f, m)
  {
    assert Placed(f, m);
  }
}
