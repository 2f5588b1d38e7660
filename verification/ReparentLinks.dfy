/** libhtmlparser/tree.h: what reparent does to the links. */
module ReparentLinks {
  import opened HtmlNodes
  import opened Forests
  import opened ForestErase
  import opened ForestMove
  import opened HtmlLinks
  import opened EraseLinks
  import opened ReplaceLinks
  import opened Seqs

  // ----- lists ------------------------------------------------------------

  lemma CutEnds(ks: seq<Id>, i: nat, j: nat)
    requires i < j <= |ks|
    ensures FirstOf(Cut(ks, i, j)) == if i == 0 then NextAt(ks, j - 1) else FirstOf(ks)
    ensures LastOf(Cut(ks, i, j)) == if j == |ks| then PrevAt(ks, i) else LastOf(ks)
  {
  }

  lemma CutSiblings(ks: seq<Id>, i: nat, j: nat, x: nat)
    requires i < j <= |ks| && x < |ks| && !(i <= x < j)
    ensures var y := if x >= j then x - (j - i) else x;
            && y < |Cut(ks, i, j)|
            && PrevAt(Cut(ks, i, j), y) == (if x == j then PrevAt(ks, i) else PrevAt(ks, x))
            && NextAt(Cut(ks, i, j), y) == (if x + 1 == i then NextAt(ks, j - 1) else NextAt(ks, x))
  {
  }

  lemma JoinSiblings(a: seq<Id>, b: seq<Id>, y: nat)
    requires y < |a| + |b| && b != []
    ensures PrevAt(a + b, y) == if y < |a| then PrevAt(a, y) else if y == |a| then LastOf(a) else PrevAt(b, y - |a|)
    ensures NextAt(a + b, y) == if y + 1 < |a| then NextAt(a, y) else if y + 1 == |a| then b[0] else NextAt(b, y - |a|)
    ensures FirstOf(a + b) == (if a == [] then b[0] else FirstOf(a)) && LastOf(a + b) == LastOf(b)
  {
  }

  lemma RunSiblings(ks: seq<Id>, i: nat, j: nat, x: nat)
    requires i <= x < j <= |ks|
    ensures PrevAt(Piece(ks, i, j), x - i) == if x == i then TOP else PrevAt(ks, x)
    ensures NextAt(Piece(ks, i, j), x - i) == if x + 1 == j then TOP else NextAt(ks, x)
  {
  }

  // ----- the assignments --------------------------------------------------

  ghost predicate CanDetach(h: Heap, a: Id, z: Id) {
    && a in h && z in h
    && (if h[a].prev == TOP then h[a].parent in h else h[a].prev in h && h[a].prev != z)
    && (if h[z].next == TOP then h[z].parent in h else h[z].next in h)
  }

  /** The siblings from a to z are taken out of their list. */
  ghost function Detach(h: Heap, a: Id, z: Id): (r: Heap)
    requires CanDetach(h, a, z)
    ensures r.Keys == h.Keys
  {
    var v, n := h[a].prev, h[z].next;
    var h1 := if v == TOP then SetFirst(h, h[a].parent, n) else SetNext(h, v, n);
    if n == TOP then SetLast(h1, h[z].parent, v) else SetPrev(h1, n, v)
  }

  lemma DetachAt(h: Heap, a: Id, z: Id, m: Id)
    requires CanDetach(h, a, z) && m in h
    ensures var v, n, was := h[a].prev, h[z].next, h[m];
            Detach(h, a, z)[m] ==
              Fields(was.data, was.parent,
                     if v == TOP && m == h[a].parent then n else was.first,
                     if n == TOP && m == h[z].parent then v else was.last,
                     if n != TOP && m == n then v else was.prev,
                     if v != TOP && m == v then n else was.next)
  {
  }

  ghost predicate CanAttach(h: Heap, q: Id, a: Id, z: Id) {
    q in h && a in h && z in h && (h[q].first != TOP ==> h[q].last in h)
  }

  /** They come behind the children of q. */
  ghost function Attach(h: Heap, q: Id, a: Id, z: Id): (r: Heap)
    requires CanAttach(h, q, a, z)
    ensures r.Keys == h.Keys
  {
    var l := h[q].last;
    var h1 := if h[q].first == TOP then SetPrev(SetLast(SetFirst(h, q, a), q, z), a, TOP)
              else SetLast(SetPrev(SetNext(h, l, a), a, l), q, z);
    SetNext(h1, z, TOP)
  }

  lemma AttachAt(h: Heap, q: Id, a: Id, z: Id, m: Id)
    requires CanAttach(h, q, a, z) && m in h
    ensures var l, was := h[q].last, h[m];
            Attach(h, q, a, z)[m] ==
              Fields(was.data, was.parent,
                     if m == q && h[q].first == TOP then a else was.first,
                     if m == q then z else was.last,
                     if m == a then (if h[q].first == TOP then TOP else l) else was.prev,
                     if m == z then TOP else if h[q].first != TOP && m == l then a else was.next)
  {
  }

  /** The nodes cs can leave their list, and come below q. */
  ghost predicate CanLeave(h: Heap, cs: seq<Id>) {
    cs != [] && CanDetach(h, cs[0], cs[|cs|-1]) && forall k :: 0 <= k < |cs| ==> cs[k] in h
  }

  ghost function Left(h: Heap, cs: seq<Id>): (r: Heap)
    requires CanLeave(h, cs)
    ensures r.Keys == h.Keys
  {
    Detach(h, cs[0], cs[|cs|-1])
  }

  ghost predicate CanMove(h: Heap, cs: seq<Id>, q: Id) {
    CanLeave(h, cs) && CanAttach(Left(h, cs), q, cs[0], cs[|cs|-1])
  }

  /** The links before the loop of reparent. */
  ghost function Arrived(h: Heap, cs: seq<Id>, q: Id): (r: Heap)
    requires CanMove(h, cs, q)
    ensures r.Keys == h.Keys
  {
    Attach(Left(h, cs), q, cs[0], cs[|cs|-1])
  }

  /** All that reparent assigns. */
  ghost function LinkMove(h: Heap, cs: seq<Id>, q: Id): (r: Heap)
    requires CanMove(h, cs, q)
    ensures r.Keys == h.Keys
  {
    Adopt(Arrived(h, cs, q), cs, q, |cs|)
  }

  lemma LinkMoveAt(h: Heap, cs: seq<Id>, q: Id, m: Id)
    requires CanMove(h, cs, q) && m in h
    ensures CanLeave(h, cs) && cs != [] && q in h && q in Left(h, cs) && m in Left(h, cs)
    ensures var a, z, l, was := cs[0], cs[|cs|-1], Left(h, cs)[q], Left(h, cs)[m];
            LinkMove(h, cs, q)[m] ==
              Fields(was.data, if m in cs then q else was.parent,
                     if m == q && l.first == TOP then a else was.first,
                     if m == q then z else was.last,
                     if m == a then (if l.first == TOP then TOP else l.last) else was.prev,
                     if m == z then TOP else if l.first != TOP && m == l.last then a else was.next)
  {
    hide Left, Attach;
    var a, z := cs[0], cs[|cs|-1];
    var d := Left(h, cs);
    AttachAt(d, q, a, z, m);
    AdoptAt(Arrived(h, cs, q), cs, q, |cs|, m);
    assert cs[..|cs|] == cs;
  }

  // ----- by place ---------------------------------------------------------

  /** A run that may leave p: at the top level the sentinels stay. */
  ghost predicate RunOf(f: Forest, p: Id, i: nat, j: nat) {
    p in f.kids && i < j <= |f.kids[p]| && (p == TOP ==> 0 < i && j < |f.kids[p]|)
  }

  lemma DetachReady(h: Heap, f: Forest, p: Id, i: nat, j: nat)
    requires WF(f) && Realizes(h, f) && RunOf(f, p, i, j)
    ensures CanLeave(h, Piece(f.kids[p], i, j)) && f.kids[p][i] in h && f.kids[p][j-1] in h
    ensures var ks, a, z := f.kids[p], h[f.kids[p][i]], h[f.kids[p][j-1]];
            && a.parent == z.parent == p && a.prev == PrevAt(ks, i) && z.next == NextAt(ks, j - 1)
            && (a.prev == TOP <==> i == 0) && (z.next == TOP <==> j == |ks|)
  {
    hide WF, Wanted, Placed, Realizes;
    var ks := f.kids[p];
    forall k | i <= k < j
      ensures ks[k] in h
    {
      RunNode(h, f, p, k);
    }
    RunNode(h, f, p, i);
    RunNode(h, f, p, j - 1);
    PlaceLinks(h, f, ks[i]);
    PlaceLinks(h, f, ks[j-1]);
    if i > 0 {
      RunNode(h, f, p, i - 1);
    }
  }

  lemma RunNode(h: Heap, f: Forest, p: Id, k: nat)
    requires WF(f) && Realizes(h, f) && p in f.kids && k < |f.kids[p]|
    ensures var c := f.kids[p][k]; c in h && c in f.par && c in f.idx && f.par[c] == p && f.idx[c] == k && c != TOP
  {
    KidFacts(f, p, k);
  }

  /** m's list and place when the run is out and not yet in again. */
  ghost function ListWithout(f: Forest, p: Id, i: nat, j: nat, m: Id): seq<Id>
    requires m in f.par && f.par[m] in f.kids && p in f.kids && i <= j <= |f.kids[p]|
  {
    if f.par[m] == p then Cut(f.kids[p], i, j) else f.kids[f.par[m]]
  }

  ghost function PlaceWithout(f: Forest, p: Id, i: nat, j: nat, m: Id): int
    requires m in f.par && m in f.idx
  {
    if f.par[m] == p && f.idx[m] >= j then f.idx[m] - (j - i) else f.idx[m]
  }

  /** m has a place in f. */
  ghost predicate Known(f: Forest, m: Id) {
    && m in f.par && m in f.idx && m in f.kids && m in f.data && m != TOP
    && f.par[m] in f.kids && f.idx[m] < |f.kids[f.par[m]]| && f.kids[f.par[m]][f.idx[m]] == m
  }

  /** What m holds when the run is out, in terms of the list that is left. */
  ghost predicate FieldsOut(f: Forest, p: Id, i: nat, j: nat, m: Id, d: Fields)
    requires RunOf(f, p, i, j) && Known(f, m)
  {
    var ks, x, y := f.kids[p], f.idx[m], PlaceWithout(f, p, i, j, m);
    var ls := ListWithout(f, p, i, j, m);
    && d.data == f.data[m] && d.parent == f.par[m]
    && d.first == FirstOf(if m == p then Cut(ks, i, j) else f.kids[m])
    && d.last == LastOf(if m == p then Cut(ks, i, j) else f.kids[m])
    && if InRun(f, p, i, j, m) then
         (x > i ==> d.prev == PrevAt(ks, x)) && (x + 1 < j ==> d.next == NextAt(ks, x))
       else 0 <= y < |ls| && d.prev == PrevAt(ls, y) && d.next == NextAt(ls, y)
  }

  lemma DetachedFields(h: Heap, f: Forest, p: Id, i: nat, j: nat, m: Id)
    requires WF(f) && Realizes(h, f) && RunOf(f, p, i, j) && m in h
    ensures CanLeave(h, Piece(f.kids[p], i, j)) && Known(f, m)
    ensures FieldsOut(f, p, i, j, m, Left(h, Piece(f.kids[p], i, j))[m])
  {
    hide WF, Wanted, Placed, Realizes, Cut, Piece, Detach, CanDetach, FirstOf, LastOf, PrevAt, NextAt;
    var ks := f.kids[p];
    var cs := Piece(ks, i, j);
    DetachReady(h, f, p, i, j);
    DetachAt(h, cs[0], cs[|cs|-1], m);
    NodeFields(h, f, m);
    CutEnds(ks, i, j);
    NeighbourOfRun(h, f, p, i, j, m);
    if f.par[m] == p && !(i <= f.idx[m] < j) {
      CutSiblings(ks, i, j, f.idx[m]);
    }
  }

  lemma NodeFields(h: Heap, f: Forest, m: Id)
    requires WF(f) && Realizes(h, f) && m in h
    ensures Known(f, m)
    ensures h[m] == Fields(f.data[m], f.par[m], FirstOf(f.kids[m]), LastOf(f.kids[m]),
                           PrevAt(f.kids[f.par[m]], f.idx[m]), NextAt(f.kids[f.par[m]], f.idx[m]))
  {
    hide WF, Wanted;
    NodePlace(h, f, m);
    WantedIs(f, m);
    InDomains(f, m);
  }

  lemma InDomains(f: Forest, m: Id)
    requires WF(f) && m in f.par
    ensures m in f.idx && m in f.kids && m in f.data && m != TOP && Placed(f, m)
  {
    assert Placed(f, m);
  }

  /** Who stands beside the run, by links and by place. */
  lemma NeighbourOfRun(h: Heap, f: Forest, p: Id, i: nat, j: nat, m: Id)
    requires WF(f) && Realizes(h, f) && RunOf(f, p, i, j) && m in h
    ensures m in f.par && m in f.idx
    ensures i > 0 ==> (m == PrevAt(f.kids[p], i) <==> f.par[m] == p && f.idx[m] + 1 == i)
    ensures j < |f.kids[p]| ==> (m == NextAt(f.kids[p], j - 1) <==> f.par[m] == p && f.idx[m] == j)
  {
    hide WF, Wanted, Realizes;
    NodeFields(h, f, m);
    if i > 0 {
      RunNode(h, f, p, i - 1);
    }
    if j < |f.kids[p]| {
      RunNode(h, f, p, j);
    }
  }

  // ----- what the new forest asks for -------------------------------------

  lemma MovedEnds(f: Forest, g: Forest, p: Id, i: nat, j: nat, q: Id, gone: set<Id>, m: Id)
    requires IsMoved(f, g, p, i, j, q, gone) && m in f.kids
    ensures m in g.kids
    ensures var base, rest, cs := Base(f, p, i, j, q), Cut(f.kids[p], i, j), Piece(f.kids[p], i, j);
            && FirstOf(g.kids[m]) == (if m == q then (if base == [] then cs[0] else FirstOf(base))
                                      else FirstOf(if m == p then rest else f.kids[m]))
            && LastOf(g.kids[m]) == (if m == q then LastOf(cs) else LastOf(if m == p then rest else f.kids[m]))
  {
    hide Cut, Piece;
    JoinSiblings(Base(f, p, i, j, q), Piece(f.kids[p], i, j), 0);
  }

  /** The siblings of a node of the run. */
  lemma RunMoved(f: Forest, g: Forest, p: Id, i: nat, j: nat, q: Id, gone: set<Id>, m: Id)
    requires IsMoved(f, g, p, i, j, q, gone) && InRun(f, p, i, j, m) && m in g.par && Placed(g, m)
    ensures var ks, x, base := f.kids[p], f.idx[m], Base(f, p, i, j, q);
            && PrevAt(g.kids[g.par[m]], g.idx[m]) == (if x == i then LastOf(base) else PrevAt(ks, x))
            && NextAt(g.kids[g.par[m]], g.idx[m]) == (if x + 1 == j then TOP else NextAt(ks, x))
  {
    hide Cut, Piece, PrevAt, NextAt, LastOf;
    var ks, x, base := f.kids[p], f.idx[m], Base(f, p, i, j, q);
    JoinSiblings(base, Piece(ks, i, j), |base| + x - i);
    RunSiblings(ks, i, j, x);
  }

  /** The siblings of another node. */
  lemma RestMoved(f: Forest, g: Forest, p: Id, i: nat, j: nat, q: Id, gone: set<Id>, m: Id)
    requires IsMoved(f, g, p, i, j, q, gone) && m in f.par && Placed(f, m) && !InRun(f, p, i, j, m)
    requires m in g.par && Placed(g, m)
    ensures var ls, y := ListWithout(f, p, i, j, m), PlaceWithout(f, p, i, j, m);
            && 0 <= y < |ls| && ls[y] == m
            && PrevAt(g.kids[g.par[m]], g.idx[m]) == PrevAt(ls, y)
            && NextAt(g.kids[g.par[m]], g.idx[m])
            == (if f.par[m] == q && y + 1 == |ls| then f.kids[p][i] else NextAt(ls, y))
  {
    hide Piece, PrevAt, NextAt, LastOf;
    var ls, y := ListWithout(f, p, i, j, m), PlaceWithout(f, p, i, j, m);
    if f.par[m] == p {
      CutAt(f.kids[p], i, j, y);
    }
    if f.par[m] == q {
      assert ls == Base(f, p, i, j, q);
      JoinSiblings(ls, Piece(f.kids[p], i, j), y);
    }
  }

  /** Who is the last of the base list. */
  lemma LastOfBase(h: Heap, f: Forest, p: Id, i: nat, j: nat, q: Id, m: Id)
    requires WF(f) && Realizes(h, f) && RunOf(f, p, i, j) && q in f.kids && m in h
    requires Base(f, p, i, j, q) != []
    ensures m in f.par && m in f.idx && f.par[m] in f.kids
    ensures m == LastOf(Base(f, p, i, j, q)) <==>
            f.par[m] == q && !InRun(f, p, i, j, m) && PlaceWithout(f, p, i, j, m) + 1 == |ListWithout(f, p, i, j, m)|
    ensures FirstOf(Base(f, p, i, j, q)) != TOP && LastOf(Base(f, p, i, j, q)) != TOP
            && LastOf(Base(f, p, i, j, q)) in h
  {
    hide WF, Wanted, Realizes, Cut;
    NodeFields(h, f, m);
    var base := Base(f, p, i, j, q);
    BaseNode(h, f, p, i, j, q, |base| - 1);
    BaseNode(h, f, p, i, j, q, 0);
    if f.par[m] == q && !InRun(f, p, i, j, m) {
      var y := PlaceWithout(f, p, i, j, m);
      if q == p {
        CutAt(f.kids[p], i, j, y);
      }
      assert base[y] == m;
    }
  }

  lemma BaseNode(h: Heap, f: Forest, p: Id, i: nat, j: nat, q: Id, y: nat)
    requires WF(f) && Realizes(h, f) && RunOf(f, p, i, j) && q in f.kids && y < |Base(f, p, i, j, q)|
    ensures var c := Base(f, p, i, j, q)[y];
            && c in h && c != TOP && c in f.par && c in f.idx && f.par[c] == q && !InRun(f, p, i, j, c)
            && PlaceWithout(f, p, i, j, c) == y
  {
    hide WF, Realizes, Cut;
    if q == p {
      CutAt(f.kids[p], i, j, y);
      RunNode(h, f, p, if y >= i then y + (j - i) else y);
    } else {
      RunNode(h, f, q, y);
    }
  }

  // ----- the links of the new forest --------------------------------------

  lemma RunMembers(h: Heap, f: Forest, p: Id, i: nat, j: nat, m: Id)
    requires WF(f) && Realizes(h, f) && RunOf(f, p, i, j) && m in h
    ensures m in f.par && m in f.idx
    ensures var cs := Piece(f.kids[p], i, j);
            && |cs| > 0 && (m in cs <==> InRun(f, p, i, j, m))
            && (m == cs[0] <==> InRun(f, p, i, j, m) && f.idx[m] == i)
            && (m == cs[|cs|-1] <==> InRun(f, p, i, j, m) && f.idx[m] + 1 == j)
            && cs[0] == f.kids[p][i] && LastOf(cs) == cs[|cs|-1]
  {
    hide WF, Wanted, Realizes, Piece;
    NodeFields(h, f, m);
    var cs := Piece(f.kids[p], i, j);
    RunNode(h, f, p, i);
    RunNode(h, f, p, j - 1);
    assert InRun(f, p, i, j, m) ==> cs[f.idx[m]-i] == m;
    if m in cs {
      var x :| 0 <= x < |cs| && cs[x] == m;
      RunNode(h, f, p, i + x);
    }
  }

  lemma AttachReady(h: Heap, f: Forest, p: Id, i: nat, j: nat, q: Id)
    requires WF(f) && Realizes(h, f) && RunOf(f, p, i, j) && q in h
    ensures q in f.kids && CanMove(h, Piece(f.kids[p], i, j), q) && CanLeave(h, Piece(f.kids[p], i, j))
    ensures var l, base := Left(h, Piece(f.kids[p], i, j))[q], Base(f, p, i, j, q);
            && l.first == FirstOf(base) && l.last == LastOf(base)
            && (l.first == TOP <==> base == []) && (base == [] ==> l.last == TOP)
  {
    hide WF, Realizes, Cut, Left, CanDetach, Piece;
    DetachedFields(h, f, p, i, j, q);
    if Base(f, p, i, j, q) != [] {
      LastOfBase(h, f, p, i, j, q, q);
    }
  }

  lemma LinkMoveEach(h: Heap, f: Forest, p: Id, i: nat, j: nat, q: Id, m: Id)
    requires WF(f) && Realizes(h, f) && RunOf(f, p, i, j) && Movable(f, p, i, j, q) && q in h && m in h
    requires WF(Moved(f, p, i, j, q)) && CanMove(h, Piece(f.kids[p], i, j), q)
    ensures m in Moved(f, p, i, j, q).par && Placed(Moved(f, p, i, j, q), m)
    ensures LinkMove(h, Piece(f.kids[p], i, j), q)[m] == Wanted(Moved(f, p, i, j, q), m)
  {
    hide WF, Realizes, Cut, Piece, Left, CanMove, CanLeave, LinkMove, Wanted, Moved, Movable, FirstOf, LastOf, PrevAt,
         NextAt, Placed, InRun;
    AttachReady(h, f, p, i, j, q);
    var g, gone, cs, base := Moved(f, p, i, j, q), Between(f, p, i, j), Piece(f.kids[p], i, j), Base(f, p, i, j, q);
    MovedIs(f, p, i, j, q);
    NodeFields(h, f, m);
    InDomains(f, m);
    InDomains(g, m);
    WantedIs(g, m);
    DetachedFields(h, f, p, i, j, m);
    LinkMoveAt(h, cs, q, m);
    RunMembers(h, f, p, i, j, m);
    MovedEnds(f, g, p, i, j, q, gone, m);
    if base != [] {
      LastOfBase(h, f, p, i, j, q, m);
    }
    if InRun(f, p, i, j, m) {
      RunMoved(f, g, p, i, j, q, gone, m);
    } else {
      RestMoved(f, g, p, i, j, q, gone, m);
    }
    InRunIs(f, p, i, j, m);
  }

  lemma InRunIs(f: Forest, p: Id, i: nat, j: nat, m: Id)
    requires m in f.par && m in f.idx
    ensures InRun(f, p, i, j, m) <==> f.par[m] == p && i <= f.idx[m] < j
  {
  }

  lemma MoveBracketed(f: Forest, p: Id, i: nat, j: nat, q: Id, head: Id, feet: Id)
    requires WF(f) && Bracketed(f, head, feet) && RunOf(f, p, i, j) && Movable(f, p, i, j, q)
    requires q != head && q != feet && q != TOP
    ensures TOP in Moved(f, p, i, j, q).kids && Bracketed(Moved(f, p, i, j, q), head, feet)
    ensures Moved(f, p, i, j, q).par.Keys == f.par.Keys && Moved(f, p, i, j, q).bound == f.bound + f.bound
  {
    hide Between, InRun;
    var g := Moved(f, p, i, j, q);
    if p == TOP {
      CutAt(f.kids[p], i, j, 0);
      CutAt(f.kids[p], i, j, |f.kids[p]| - (j - i) - 1);
    }
  }

  /** The links after reparent are those of the forest in which the run has
      moved. */
  lemma MoveConsistent(h: Heap, f: Forest, p: Id, i: nat, j: nat, q: Id, head: Id, feet: Id)
    requires Consistent(h, f, head, feet) && RunOf(f, p, i, j) && Movable(f, p, i, j, q)
    requires q in h && q != head && q != feet
    ensures CanMove(h, Piece(f.kids[p], i, j), q)
    ensures Consistent(LinkMove(h, Piece(f.kids[p], i, j), q), Moved(f, p, i, j, q), head, feet)
  {
    hide WF, Realizes, Bracketed, Domains, Wanted, Placed, Moved, Movable, LinkMove, CanMove, Cut, Piece;
    NodeKnown(h, f, head, feet, q);
    MovedWF(f, p, i, j, q);
    AttachReady(h, f, p, i, j, q);
    MoveBracketed(f, p, i, j, q, head, feet);
    HeapKeys(h, f);
    BoundAbove(h, f, head, feet);
    WFDomains(Moved(f, p, i, j, q));
    forall m | m in Moved(f, p, i, j, q).par
      ensures Placed(Moved(f, p, i, j, q), m)
           && LinkMove(h, Piece(f.kids[p], i, j), q)[m] == Wanted(Moved(f, p, i, j, q), m)
    {
      LinkMoveEach(h, f, p, i, j, q, m);
    }
    RealizesWhen(LinkMove(h, Piece(f.kids[p], i, j), q), Moved(f, p, i, j, q));
  }

  /** Behind the loop's reach nothing changes: the run is still chained when it
      has come to its new place. */
  lemma RunChained(h: Heap, f: Forest, p: Id, i: nat, j: nat, q: Id, k: nat)
    requires WF(f) && Realizes(h, f) && RunOf(f, p, i, j) && q in h && k < j - i
    requires var cs := Piece(f.kids[p], i, j); CanMove(h, cs, q) && CanLeave(h, cs)
    ensures var cs := Piece(f.kids[p], i, j);
            && cs[k] in h
            && Arrived(h, cs, q)[cs[k]].next == (if k + 1 < |cs| then cs[k+1] else TOP)
  {
    hide WF, Realizes, Left, Attach, CanLeave, Cut;
    var cs, m := Piece(f.kids[p], i, j), f.kids[p][i+k];
    RunNode(h, f, p, i + k);
    AttachReady(h, f, p, i, j, q);
    DetachedFields(h, f, p, i, j, m);
    AttachAt(Left(h, cs), q, cs[0], cs[|cs|-1], m);
    RunMembers(h, f, p, i, j, m);
    if Base(f, p, i, j, q) != [] {
      LastOfBase(h, f, p, i, j, q, m);
    }
  }

  /** The siblings in a run differ. */
  lemma RunOnce(h: Heap, f: Forest, p: Id, k: nat, l: nat)
    requires WF(f) && Realizes(h, f) && p in f.kids && k < l < |f.kids[p]|
    ensures f.kids[p][k] != f.kids[p][l] && f.kids[p][l] != TOP
  {
    RunNode(h, f, p, k);
    RunNode(h, f, p, l);
  }

  /** What the loop of reparent relies on. */
  ghost predicate Chained(h: Heap, cs: seq<Id>, q: Id)
    requires CanMove(h, cs, q)
  {
    && NoDup(cs) && q !in cs
    && forall k :: 0 <= k < |cs| ==> cs[k] in h && Arrived(h, cs, q)[cs[k]].next == NextAt(cs, k)
  }

  lemma MoveReady(h: Heap, f: Forest, p: Id, i: nat, j: nat, q: Id)
    requires WF(f) && Realizes(h, f) && RunOf(f, p, i, j) && Movable(f, p, i, j, q) && q in h
    ensures var cs := Piece(f.kids[p], i, j);
            CanMove(h, cs, q) && Chained(h, cs, q) && cs[0] == f.kids[p][i] && cs[|cs|-1] == f.kids[p][j-1]
  {
    hide WF, Realizes, Arrived, CanMove, CanLeave, RunOf, Between;
    var cs := Piece(f.kids[p], i, j);
    AttachReady(h, f, p, i, j, q);
    forall k, l | 0 <= k < l < |cs|
      ensures cs[k] != cs[l]
    {
      RunOnce(h, f, p, i + k, i + l);
    }
    forall k | 0 <= k < |cs|
      ensures cs[k] in h && Arrived(h, cs, q)[cs[k]].next == NextAt(cs, k)
      ensures q != cs[k]
    {
      RunChained(h, f, p, i, j, q, k);
      RunNode(h, f, p, i + k);
      BetweenCloses(f, p, i, j, cs[k]);
    }
  }
}
