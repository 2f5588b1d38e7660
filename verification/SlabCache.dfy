/** libspider/Slab.cpp: the slab allocator. */
module Slabs {
  import opened Rings
  import opened Seqs

  /** An object: the slab that holds it and its place there. */
  datatype Obj = Obj(slab: Slab, index: nat)

  /** The end of a free list. */
  const NONE: int := -1

  /** list is chained through next from first on. */
  ghost predicate Chained(first: int, next: seq<int>, list: seq<int>) {
    && first == (if list == [] then NONE else list[0])
    && (forall i {:trigger list[i]} :: 0 <= i < |list| ==> 0 <= list[i] < |next|)
    && (forall i {:trigger next[list[i]]} ::
          0 <= i < |list| ==> next[list[i]] == if i + 1 < |list| then list[i+1] else NONE)
  }

  lemma ChainTail(first: int, next: seq<int>, list: seq<int>)
    requires Chained(first, next, list) && list != [] && NoDup(list)
    ensures Chained(next[first], next, list[1..]) && NoDup(list[1..])
    ensures forall i {:trigger i in list} :: i in list <==> i == first || i in list[1..]
    ensures first !in list[1..]
  {
    var rest := list[1..];
    forall i | 0 <= i < |rest|
      ensures next[rest[i]] == if i + 1 < |rest| then rest[i+1] else NONE
    {
      assert rest[i] == list[i+1];
    }
  }

  lemma ChainPush(first: int, next: seq<int>, list: seq<int>, k: nat)
    requires Chained(first, next, list) && NoDup(list) && k < |next| && k !in list
    ensures Chained(k, next[k := first], [k] + list) && NoDup([k] + list)
    ensures forall i {:trigger i in [k] + list} :: i in [k] + list <==> i == k || i in list
  {
    var more := [k] + list;
    forall i | 0 <= i < |more|
      ensures 0 <= more[i] < |next|
      ensures next[k := first][more[i]] == if i + 1 < |more| then more[i+1] else NONE
    {
      if i > 0 {
        assert more[i] == list[i-1] && list[i-1] in list;
      }
    }
  }

  /** The numbers below n. */
  ghost function Upto(n: nat): (r: set<int>)
    ensures |r| == n && forall i {:trigger i in r} :: i in r <==> 0 <= i < n
  {
    if n == 0 then {} else Upto(n - 1) + {n - 1}
  }

  lemma CountIsAll(list: seq<int>, n: nat)
    requires |list| == n && forall j {:trigger list[j]} :: 0 <= j < n ==> list[j] == j
    ensures forall j {:trigger j in list} :: 0 <= j < n ==> j in list
  {
    forall j | 0 <= j < n
      ensures j in list
    {
      assert list[j] == j;
    }
  }

  class Slab {
    const item: ListHead<Slab?>
    var inuse: int
    // The first free object, and the link in the header of every object.
    var free: int
    var next: seq<int>
    ghost var freeList: seq<int>

    ghost predicate Valid()
      reads this
    {
      Chained(free, next, freeList) && NoDup(freeList) && inuse >= 0 && |freeList| + inuse == |next|
    }

    /** The objects that are in use. */
    ghost function Live(): set<int>
      reads this
    {
      set i | i in Upto(|next|) && i !in freeList
    }

    /** The part of newSlab that lays out the objects. */
    constructor (numObjs: nat)
      requires numObjs > 0
      ensures Valid() && inuse == 0 && |next| == numObjs && Live() == {}
      ensures fresh(item) && item.prev == item.next == item && item.entry == this
    {
      var link := new ListHead<Slab?>(null);
      item, inuse, free, next, freeList := link, 0, 0, seq(numObjs, _ => NONE), seq(numObjs, i => i);
      new;
      item.entry := this;
      var obj, i := 0, 0;
      while i < numObjs - 1
        invariant 0 <= i <= numObjs - 1 && obj == i && free == 0 && inuse == 0 && |next| == numObjs
        invariant item == link && item.entry == this && item.prev == item.next == item
        invariant freeList == seq(numObjs, i => i)
        invariant forall j {:trigger next[j]} :: 0 <= j < i ==> next[j] == j + 1
      {
        next := next[obj := obj + 1];
        obj := obj + 1;
        i := i + 1;
      }
      next := next[obj := NONE];
      CountIsAll(freeList, numObjs);
    }

    /** An object for the caller: the first free one. */
    method Take() returns (obj: nat)
      requires Valid() && freeList != []
      modifies this`inuse, this`free, this`freeList
      ensures Valid() && inuse == old(inuse) + 1 && |freeList| == |old(freeList)| - 1
      ensures free == NONE <==> freeList == []
      ensures obj < |next| && obj !in old(Live()) && Live() == old(Live()) + {obj}
    {
      ChainTail(free, next, freeList);
      inuse := inuse + 1;
      obj := free;
      free := next[free];
      freeList := freeList[1..];
    }

    /** An object comes back: it is the first free one now. */
    method Put(obj: nat) returns (was: int)
      requires Valid() && obj in Live()
      modifies this`inuse, this`free, this`next, this`freeList
      ensures Valid() && was == old(inuse) && inuse == was - 1 && |next| == |old(next)|
      ensures Live() == old(Live()) - {obj}
    {
      FreeBound(freeList + [obj], |next|);
      ChainPush(free, next, freeList, obj);
      next := next[obj := free];
      free := obj;
      freeList := [obj] + freeList;
      was := inuse;
      inuse := inuse - 1;
    }

    /** As many objects are in use as inuse says. */
    lemma LiveCount()
      requires Valid()
      ensures |Live()| == inuse
    {
      var list := set i | i in freeList;
      SetLength(freeList, list);
      assert Live() == Upto(|next|) - list;
      assert list <= Upto(|next|);
    }
  }

  lemma {:induction false} SetLength(list: seq<int>, S: set<int>)
    requires NoDup(list) && S == set o | o in list
    ensures |S| == |list|
    decreases |list|
  {
    if list == [] {
      assert S == {};
    } else {
      var rest := list[1..];
      assert S - {list[0]} == set o | o in rest;
      SetLength(rest, S - {list[0]});
    }
  }

  /** Distinct numbers below n are at most n. */
  lemma FreeBound(list: seq<int>, n: nat)
    requires NoDup(list) && forall i {:trigger list[i]} :: 0 <= i < |list| ==> 0 <= list[i] < n
    ensures |list| <= n
  {
    var S := set i | i in list;
    SetLength(list, S);
    assert S <= Upto(n);
    assert Upto(n) * S == S && |Upto(n) - S| == |Upto(n)| - |S|;
  }

  // ----- the order of the slabs -------------------------------------------

  const MAX_FREE_SLABS: int := 8

  /** How many objects of each slab are in use: full slabs first, then partial
      ones, then empty ones. */
  ghost predicate Ordered(use: seq<int>, numObjs: int, full: nat, partial: nat) {
    && full <= partial <= |use|
    && (forall i {:trigger use[i]} :: 0 <= i < full ==> use[i] == numObjs)
    && (forall i {:trigger use[i]} :: full <= i < partial ==> 0 < use[i] < numObjs)
    && (forall i {:trigger use[i]} :: partial <= i < |use| ==> use[i] == 0)
  }

  ghost function Ring(head: ListHead<Slab?>, slabs: seq<Slab>): (r: seq<ListHead<Slab?>>)
    ensures |r| == |slabs| + 1
    ensures r[0] == head && forall i {:trigger slabs[i]} :: 0 <= i < |slabs| ==> r[i+1] == slabs[i].item
  {
    [head] + seq(|slabs|, i requires 0 <= i < |slabs| => slabs[i].item)
  }

  ghost function Use(slabs: seq<Slab>): (r: seq<int>)
    reads set s | s in slabs
    ensures |r| == |slabs|
  {
    seq(|slabs|, i requires 0 <= i < |slabs| reads set s | s in slabs => slabs[i].inuse)
  }

  ghost function Lives(slabs: seq<Slab>): (r: seq<set<int>>)
    reads set s | s in slabs
    ensures |r| == |slabs|
  {
    seq(|slabs|, i requires 0 <= i < |slabs| reads set s | s in slabs => slabs[i].Live())
  }

  lemma LastSlab(slabs: seq<Slab>, s: Slab)
    ensures Use(slabs + [s]) == Use(slabs) + [s.inuse] && Lives(slabs + [s]) == Lives(slabs) + [s.Live()]
  {
    hide Slab.Live;
  }

  /** The objects of slabs, by place in their slab. */
  ghost function ObjsOf(slabs: seq<Slab>, lives: seq<set<int>>): set<Obj>
    requires |slabs| == |lives|
  {
    set i, k | 0 <= i < |slabs| && k in lives[i] && k >= 0 :: Obj(slabs[i], k)
  }

  ghost predicate InObjs(slabs: seq<Slab>, lives: seq<set<int>>, o: Obj)
    requires |slabs| == |lives|
  {
    exists i :: 0 <= i < |slabs| && slabs[i] == o.slab && o.index in lives[i]
  }

  lemma ObjsAre(slabs: seq<Slab>, lives: seq<set<int>>, o: Obj)
    requires |slabs| == |lives|
    ensures o in ObjsOf(slabs, lives) <==> InObjs(slabs, lives, o)
  {
  }

  lemma ObjsMore(slabs: seq<Slab>, lives: seq<set<int>>, i: nat, k: nat)
    requires |slabs| == |lives| && NoDup(slabs) && i < |slabs| && k !in lives[i]
    ensures ObjsOf(slabs, lives[i := lives[i] + {k}]) == ObjsOf(slabs, lives) + {Obj(slabs[i], k)}
    ensures Obj(slabs[i], k) !in ObjsOf(slabs, lives)
  {
    var after := lives[i := lives[i] + {k}];
    forall o
      ensures o in ObjsOf(slabs, after) <==> o in ObjsOf(slabs, lives) || o == Obj(slabs[i], k)
    {
      ObjsAre(slabs, lives, o);
      ObjsAre(slabs, after, o);
      assert o.slab == slabs[i] ==> (InObjs(slabs, after, o) <==> o.index in after[i]);
      assert o.slab == slabs[i] ==> (InObjs(slabs, lives, o) <==> o.index in lives[i]);
    }
  }

  lemma ObjsFewer(slabs: seq<Slab>, lives: seq<set<int>>, i: nat, k: nat)
    requires |slabs| == |lives| && NoDup(slabs) && i < |slabs|
    ensures ObjsOf(slabs, lives[i := lives[i] - {k}]) == ObjsOf(slabs, lives) - {Obj(slabs[i], k)}
  {
    var after := lives[i := lives[i] - {k}];
    forall o
      ensures o in ObjsOf(slabs, after) <==> o in ObjsOf(slabs, lives) && o != Obj(slabs[i], k)
    {
      ObjsAre(slabs, lives, o);
      ObjsAre(slabs, after, o);
      assert o.slab == slabs[i] ==> (InObjs(slabs, after, o) <==> o.index in after[i]);
      assert o.slab == slabs[i] ==> (InObjs(slabs, lives, o) <==> o.index in lives[i]);
    }
  }

  /** A slab without live objects does not count. */
  lemma ObjsAddEmpty(slabs: seq<Slab>, lives: seq<set<int>>, s: Slab)
    requires |slabs| == |lives|
    ensures ObjsOf(slabs + [s], lives + [{}]) == ObjsOf(slabs, lives)
  {
    forall o
      ensures o in ObjsOf(slabs + [s], lives + [{}]) <==> o in ObjsOf(slabs, lives)
    {
      ObjsAre(slabs, lives, o);
      ObjsAre(slabs + [s], lives + [{}], o);
      assert forall i :: 0 <= i < |slabs| ==> (slabs + [s])[i] == slabs[i] && (lives + [{}])[i] == lives[i];
    }
  }

  // ----- moving a slab to another place -----------------------------------

  /** The list with its i-th member at the j-th place. */
  ghost function Moved<T>(s: seq<T>, i: nat, j: nat): (r: seq<T>)
    requires i < |s| && j < |s|
    ensures |r| == |s|
  {
    var rest := Removed(s, i);
    rest[..j] + [s[i]] + rest[j..]
  }

  lemma MovedNowhere<T>(s: seq<T>, i: nat)
    requires i < |s|
    ensures Moved(s, i, i) == s
  {
  }

  function Source(i: nat, j: nat, y: nat): nat {
    if y == j then i
    else
      var r := if y < j then y else y - 1;
      if r < i then r else r + 1
  }

  lemma MovedAt<T>(s: seq<T>, i: nat, j: nat, y: nat)
    requires i < |s| && j < |s| && y < |s|
    ensures Source(i, j, y) < |s| && Moved(s, i, j)[y] == s[Source(i, j, y)]
    ensures Source(j, i, y) < |s| && Source(i, j, Source(j, i, y)) == y
  {
  }

  /** Moving the slab and its live objects alike changes no object. */
  lemma ObjsMoved(slabs: seq<Slab>, lives: seq<set<int>>, i: nat, j: nat)
    requires |slabs| == |lives| && i < |slabs| && j < |slabs|
    ensures ObjsOf(Moved(slabs, i, j), Moved(lives, i, j)) == ObjsOf(slabs, lives)
  {
    forall o
      ensures o in ObjsOf(Moved(slabs, i, j), Moved(lives, i, j)) <==> o in ObjsOf(slabs, lives)
    {
      ObjsAre(slabs, lives, o);
      ObjsAre(Moved(slabs, i, j), Moved(lives, i, j), o);
      InMoved(slabs, lives, i, j, o);
    }
  }

  lemma InMoved(slabs: seq<Slab>, lives: seq<set<int>>, i: nat, j: nat, o: Obj)
    requires |slabs| == |lives| && i < |slabs| && j < |slabs|
    ensures InObjs(Moved(slabs, i, j), Moved(lives, i, j), o) <==> InObjs(slabs, lives, o)
  {
    hide Moved;
    if y: nat :| y < |slabs| && Moved(slabs, i, j)[y] == o.slab && o.index in Moved(lives, i, j)[y] {
      MovedAt(slabs, i, j, y);
      MovedAt(lives, i, j, y);
    }
    if x: nat :| x < |slabs| && slabs[x] == o.slab && o.index in lives[x] {
      MovedAt(slabs, i, j, Source(j, i, x));
      MovedAt(lives, i, j, Source(j, i, x));
      MovedAt(slabs, i, j, x);
      assert Moved(slabs, i, j)[Source(j, i, x)] == slabs[x];
    }
  }

  lemma StateMoved(slabs: seq<Slab>, i: nat, j: nat)
    requires i < |slabs| && j < |slabs|
    ensures Use(Moved(slabs, i, j)) == Moved(Use(slabs), i, j)
    ensures Lives(Moved(slabs, i, j)) == Moved(Lives(slabs), i, j)
    ensures forall s {:trigger s in slabs} {:trigger s in Moved(slabs, i, j)} :: s in Moved(slabs, i, j) <==> s in slabs
  {
    hide Moved, Slab.Live;
    forall y | 0 <= y < |slabs|
      ensures Use(Moved(slabs, i, j))[y] == Moved(Use(slabs), i, j)[y]
      ensures Lives(Moved(slabs, i, j))[y] == Moved(Lives(slabs), i, j)[y]
      ensures slabs[y] in Moved(slabs, i, j) && Moved(slabs, i, j)[y] in slabs
    {
      MovedAt(slabs, i, j, y);
      MovedAt(Use(slabs), i, j, y);
      MovedAt(Lives(slabs), i, j, y);
      MovedAt(slabs, i, j, Source(j, i, y));
    }
  }

  lemma RingAddLast(head: ListHead<Slab?>, slabs: seq<Slab>, s: Slab)
    ensures Added(Ring(head, slabs), 0, s.item) == Ring(head, slabs + [s])
  {
  }

  lemma RingAdd(head: ListHead<Slab?>, slabs: seq<Slab>, k: nat, s: Slab)
    requires k < |slabs|
    ensures Added(Ring(head, slabs), k + 1, s.item) == Ring(head, slabs[..k] + [s] + slabs[k..])
  {
  }

  lemma RingRemove(head: ListHead<Slab?>, slabs: seq<Slab>, k: nat)
    requires k < |slabs|
    ensures Removed(Ring(head, slabs), k + 1) == Ring(head, Removed(slabs, k))
  {
  }

  lemma RingPrefix(head: ListHead<Slab?>, slabs: seq<Slab>, k: nat)
    requires k <= |slabs|
    ensures forall r {:trigger r in Ring(head, slabs[..k])} :: r in Ring(head, slabs[..k]) ==> r in Ring(head, slabs)
    ensures forall y {:trigger Ring(head, slabs[..k])[y]} ::
              0 <= y <= k ==> Ring(head, slabs[..k])[y] == Ring(head, slabs)[y]
  {
    assert Ring(head, slabs)[..k+1] == Ring(head, slabs[..k]);
  }

  /** What is cut off is not in the rest. */
  lemma RingCut(head: ListHead<Slab?>, slabs: seq<Slab>, k: nat)
    requires NoDup(Ring(head, slabs)) && k <= |slabs|
    ensures forall y {:trigger slabs[y]} :: k <= y < |slabs| ==> slabs[y].item !in Ring(head, slabs[..k])
  {
    var ring := Ring(head, slabs);
    RingPrefix(head, slabs, k);
    forall y {:trigger slabs[y]} | k <= y < |slabs|
      ensures slabs[y].item !in Ring(head, slabs[..k])
    {
      assert ring[y+1] == slabs[y].item;
    }
  }

  lemma RingMoved(head: ListHead<Slab?>, slabs: seq<Slab>, i: nat, j: nat)
    requires i < |slabs| && j < |slabs|
    ensures Added(Removed(Ring(head, slabs), i + 1), if j + 1 < |slabs| then j + 1 else 0, slabs[i].item)
         == Ring(head, Moved(slabs, i, j))
  {
    var rest := Removed(slabs, i);
    RingRemove(head, slabs, i);
    if j + 1 < |slabs| {
      RingAdd(head, rest, j, slabs[i]);
    } else {
      RingAddLast(head, rest, slabs[i]);
      assert Moved(slabs, i, j) == rest + [slabs[i]];
    }
  }

  /** The node at the j-th place behind the head once the i-th is gone. */
  lemma RingWithout(head: ListHead<Slab?>, slabs: seq<Slab>, i: nat, j: nat)
    requires i <= j < |slabs|
    ensures var k := if j + 1 < |slabs| then j + 1 else 0;
            Removed(Ring(head, slabs), i + 1)[k] == if j + 1 < |slabs| then slabs[j+1].item else head
  {
  }

  /** Slabs differ because their nodes do. */
  lemma SlabsDiffer(head: ListHead<Slab?>, slabs: seq<Slab>)
    requires NoDup(Ring(head, slabs))
    ensures NoDup(slabs) && forall i {:trigger slabs[i]} :: 0 <= i < |slabs| ==> slabs[i].item != head
  {
    var ring := Ring(head, slabs);
    forall i | 0 <= i < |slabs|
      ensures slabs[i].item != head && forall j :: i < j < |slabs| ==> slabs[i] != slabs[j]
    {
      assert ring[i+1] == slabs[i].item;
    }
  }

  lemma OrderedNew(use: seq<int>, numObjs: int, full: nat, partial: nat)
    requires Ordered(use, numObjs, full, partial) && full == |use|
    ensures Ordered(use + [0], numObjs, full, full)
  {
  }

  lemma OrderedTake(use: seq<int>, numObjs: int, full: nat, partial: nat)
    requires Ordered(use, numObjs, full, partial) && full < |use| && numObjs >= 2
    ensures var f := if use[full] + 1 == numObjs then full + 1 else full;
            var p := if use[full] == 0 then full + 1 else partial;
            Ordered(use[full := use[full] + 1], numObjs, f, p)
    ensures 0 <= use[full] < numObjs && (use[full] == 0 <==> partial == full)
  {
  }

  /** A full slab gets a free object: it becomes the first partial one. */
  lemma OrderedFull(use: seq<int>, numObjs: int, full: nat, partial: nat, i: nat)
    requires Ordered(use, numObjs, full, partial) && i < full && numObjs >= 2
    ensures Ordered(Moved(use[i := numObjs - 1], i, full - 1), numObjs, full - 1, partial)
  {
    hide Moved;
    var after := use[i := numObjs - 1];
    var r := Moved(after, i, full - 1);
    forall y {:trigger r[y]} | 0 <= y < |use|
      ensures r[y] == if y == full - 1 then numObjs - 1 else use[y]
    {
      MovedAt(after, i, full - 1, y);
    }
  }

  lemma OrderedCut(use: seq<int>, numObjs: int, full: nat, partial: nat, m: nat)
    requires Ordered(use, numObjs, full, partial) && partial <= m <= |use|
    ensures Ordered(use[..m], numObjs, full, partial)
  {
  }

  lemma OrderedPartial(use: seq<int>, numObjs: int, full: nat, partial: nat, i: nat)
    requires Ordered(use, numObjs, full, partial) && full <= i < |use| && use[i] > 1
    ensures Ordered(use[i := use[i] - 1], numObjs, full, partial)
  {
  }

  /** A partial slab becomes empty and goes to the end, where some empty slabs
      may have been released. */
  lemma OrderedEmpty(use: seq<int>, numObjs: int, full: nat, partial: nat, i: nat, m: nat)
    requires Ordered(use, numObjs, full, partial) && full <= i < |use| && use[i] == 1 && partial <= m <= |use|
    ensures i < partial && Ordered(Moved(use[i := 0][..m], i, m - 1), numObjs, full, partial - 1)
  {
    hide Moved;
    var after := use[i := 0][..m];
    var r := Moved(after, i, m - 1);
    forall y {:trigger r[y]} | 0 <= y < m
      ensures r[y] == if y < i then use[y] else if y == m - 1 then 0 else use[y+1]
    {
      MovedAt(after, i, m - 1, y);
    }
  }

  ghost function Members(slabs: seq<Slab>): set<Slab> {
    set s | s in slabs
  }

  lemma MembersMore(slabs: seq<Slab>, k: nat)
    requires k < |slabs|
    ensures Members(slabs[k..]) == Members(slabs[k+1..]) + {slabs[k]}
  {
    assert slabs[k..] == [slabs[k]] + slabs[k+1..];
  }

  /** n, but no less than 0 and no more than k. */
  function AtMost(n: int, k: nat): nat {
    if n < 0 then 0 else if n < k then n else k
  }

  /** A slab that becomes empty goes to the end of the list, or back to the
      end after it has been dropped with all behind it. */
  lemma OrderedFree(use: seq<int>, numObjs: int, full: nat, partial: nat, i: nat, m: nat)
    requires Ordered(use, numObjs, full, partial) && full <= i < |use| && use[i] == 1 && m <= |use|
    requires partial <= m || (i == m && m + 1 == partial)
    ensures i < partial && i <= m
    ensures i < m ==> Ordered(Moved(use[i := 0][..m], i, m - 1), numObjs, full, partial - 1)
    ensures i == m ==> Ordered(use[i := 0][..m] + [0], numObjs, full, partial - 1)
  {
    if i < m {
      OrderedEmpty(use, numObjs, full, partial, i, m);
    } else {
      assert use[i := 0][..m] == use[..m];
    }
  }

  class Cache {
    const slabList: ListHead<Slab?>
    const numObjs: int
    // What reclaim adds to numFreeSlabs for each slab that it releases: the
    // code adds 1, the rest of the code counts on -1.
    const counterStep: int
    var firstNotFull: ListHead<Slab?>
    var numFreeSlabs: int
    ghost var slabs: seq<Slab>
    // How many slabs are full, and how many are not empty.
    ghost var full: nat
    ghost var partial: nat
    // The slabs whose memory has been given back.
    ghost var released: set<Slab>

    ghost predicate Sound(s: Slab)
      reads s, s.item`entry
    {
      s.Valid() && |s.next| == numObjs && s.item.entry == s
    }

    /** Every slab is sound and in the ring. */
    ghost predicate Linkage()
      reads this`slabs, (set s | s in slabs), set r | r in Ring(slabList, slabs)
    {
      && numObjs >= 2 && (counterStep == 1 || counterStep == -1)
      && (forall i {:trigger slabs[i]} ::
            0 <= i < |slabs| ==> Ring(slabList, slabs)[i+1] == slabs[i].item && Sound(slabs[i]))
      && Linked(Ring(slabList, slabs))
    }

    ghost predicate Boundary()
      reads this`firstNotFull, this`full, this`slabs
    {
      firstNotFull == if full < |slabs| then slabs[full].item else slabList
    }

    /** No released slab is in the ring. */
    ghost predicate Intact()
      reads this`slabs, this`released
    {
      forall s {:trigger s in slabs} {:trigger s in released} | s in slabs :: s !in released
    }

    /** The slabs stand in order and firstNotFull is where it belongs. What
        numFreeSlabs says does not matter here. */
    ghost predicate Shape()
      reads this, (set s | s in slabs), set r | r in Ring(slabList, slabs)
    {
      Linkage() && Ordered(Use(slabs), numObjs, full, partial) && Boundary() && Intact()
    }

    /** By how much numFreeSlabs is too high. */
    ghost function Drift(): int
      reads this`numFreeSlabs, this`slabs, this`partial
    {
      numFreeSlabs - (|slabs| - partial)
    }

    ghost predicate Valid()
      reads this, (set s | s in slabs), set r | r in Ring(slabList, slabs)
    {
      Shape() && numFreeSlabs == |slabs| - partial && numFreeSlabs <= MAX_FREE_SLABS
    }

    ghost function Live(): set<Obj>
      reads this`slabs, set s | s in slabs
    {
      ObjsOf(slabs, Lives(slabs))
    }

    constructor (n: int, counterStep: int)
      requires n >= 2 && (counterStep == 1 || counterStep == -1)
      ensures Valid() && slabs == [] && fresh(slabList) && this.counterStep == counterStep && numObjs == n
    {
      var head := new ListHead<Slab?>(null);
      slabList, numObjs, numFreeSlabs, firstNotFull, this.counterStep := head, n, 0, head, counterStep;
      slabs, full, partial, released := [], 0, 0, {};
      new;
      assert Ring(head, []) == [head];
    }

    // ----- the ring -------------------------------------------------------

    method LinkLast(slab: Slab)
      requires Linked(Ring(slabList, slabs)) && slab.item !in Ring(slabList, slabs)
      modifies Ring(slabList, slabs)`prev, Ring(slabList, slabs)`next, slab.item`prev, slab.item`next
      ensures Linked(Ring(slabList, slabs + [slab]))
    {
      RingAddLast(slabList, slabs, slab);
      assert Joined(Ring(slabList, slabs), |slabs|);
      slabList.Add(slab.item, Ring(slabList, slabs), 0);
    }

    method NewSlab() returns (slab: Slab)
      requires Shape() && full == |slabs|
      modifies this, Ring(slabList, slabs)
      ensures Shape() && fresh(slab) && fresh(slab.item)
      ensures slabs == old(slabs) + [slab] && slab.inuse == 0
      ensures full == partial == |old(slabs)| && numFreeSlabs == old(numFreeSlabs) && released == old(released)
      ensures Live() == old(Live())
    {
      hide Slab.Valid, Linked, NoDup, Ordered, ObjsOf, Slab.Live, Use, Lives, Linkage;
      Linkages();
      slab := new Slab(numObjs);
      LinkLast(slab);
      LastSlab(slabs, slab);
      ObjsAddEmpty(slabs, Lives(slabs), slab);
      firstNotFull := slab.item;
      partial := full;
      slabs := slabs + [slab];
      LinkageMore(slab);
      OrderedNew(old(Use(slabs)), numObjs, full, old(partial));
    }

    lemma Linkages()
      requires Linkage()
      ensures Linked(Ring(slabList, slabs)) && numObjs >= 2
    {
    }

    /** A sound slab has come to the end of the list. */
    twostate lemma LinkageMore(new slab: Slab)
      requires old(Linkage()) && slabs == old(slabs) + [slab] && Sound(slab)
      requires Linked(Ring(slabList, slabs))
      requires forall s {:trigger s in old(slabs)} | s in old(slabs) :: unchanged(s) && unchanged(s.item`entry)
      ensures Linkage()
    {
      hide Slab.Valid, Linked;
      forall i | 0 <= i < |slabs|
        ensures Ring(slabList, slabs)[i+1] == slabs[i].item && Sound(slabs[i])
      {
        if i < |old(slabs)| {
          assert slabs[i] == old(slabs)[i] && old(slabs)[i] in old(slabs) && old(Sound(slabs[i]));
        }
      }
    }

    /** firstNotFull is the list head exactly when every slab is full. */
    lemma NoneFree()
      requires Shape()
      ensures firstNotFull == slabList <==> full == |slabs|
    {
      hide Slab.Valid;
      var ring := Ring(slabList, slabs);
      assert full < |slabs| ==> ring[full+1] == slabs[full].item;
    }

    /** Only the i-th slab has changed, and of it only the free list. */
    twostate lemma OneSlab(i: nat)
      requires old(Linkage()) && slabs == old(slabs) && i < |slabs| && Sound(slabs[i])
      requires forall s {:trigger s in slabs} | s in slabs && s != slabs[i] :: unchanged(s)
      requires unchanged(Ring(slabList, slabs))
      ensures Linkage() && Use(slabs) == old(Use(slabs))[i := slabs[i].inuse]
      ensures Lives(slabs) == old(Lives(slabs))[i := slabs[i].Live()]
    {
      hide Slab.Valid, Slab.Live;
      SlabsDiffer(slabList, slabs);
      forall j | 0 <= j < |slabs| && j != i
        ensures Ring(slabList, slabs)[j+1] == slabs[j].item && Sound(slabs[j])
        ensures slabs[j].inuse == old(slabs[j].inuse) && slabs[j].Live() == old(slabs[j].Live())
      {
        assert slabs[j] in slabs && slabs[j] != slabs[i];
      }
    }

    /** An object of the i-th slab, which is not full. */
    method TakeFrom(slab: Slab, ghost i: nat) returns (obj: Obj)
      requires Linkage() && i < |slabs| && slab == slabs[i] && slab.inuse < numObjs
      modifies slab`inuse, slab`free, slab`freeList
      ensures Linkage() && Use(slabs) == old(Use(slabs)[i := slab.inuse + 1])
      ensures obj !in old(Live()) && Live() == old(Live()) + {obj} && obj.slab == slab
      ensures slab.inuse == old(slab.inuse) + 1 && (slab.free == NONE <==> slab.inuse == numObjs)
    {
      hide Linkage, ObjsOf, Slab.Live;
      ShapeAt(i);
      var k := slab.Take();
      obj := Obj(slab, k);
      OneSlab(i);
      ObjsMore(slabs, old(Lives(slabs)), i, k);
    }

    lemma ShapeAt(i: nat)
      requires Linkage() && i < |slabs|
      ensures Sound(slabs[i]) && Joined(Ring(slabList, slabs), i + 1) && numObjs >= 2
      ensures slabs[i].inuse < numObjs ==> slabs[i].freeList != []
      ensures NoDup(slabs)
    {
      SlabsDiffer(slabList, slabs);
    }

    lemma Bounds()
      requires Shape()
      ensures full <= partial <= |slabs|
    {
    }

    lemma TwoOrMore()
      requires Linkage()
      ensures numObjs >= 2 && (counterStep == 1 || counterStep == -1)
    {
    }

    lemma NextItem(i: nat)
      requires Linkage() && i < |slabs|
      ensures slabs[i].item.next == if i + 1 < |slabs| then slabs[i+1].item else slabList
    {
      hide Slab.Valid;
      assert Joined(Ring(slabList, slabs), i + 1);
    }

    /** The part of allocObj behind the choice of the slab. */
    method TakeObj(slab: Slab) returns (obj: Obj)
      requires Shape() && full < |slabs| && slab == slabs[full]
      modifies this`firstNotFull, this`full, this`partial, slab`inuse, slab`free, slab`freeList
      ensures Shape() && obj !in old(Live()) && Live() == old(Live()) + {obj}
      ensures partial == if old(slab.inuse) == 0 then old(full) + 1 else old(partial)
      ensures obj.slab == slab && slab.inuse == old(slab.inuse) + 1
      ensures full == if slab.inuse == numObjs then old(full) + 1 else old(full)
    {
      hide Linkage, Ordered, ObjsOf, Slab.Valid, Slab.Live, Linked, Lives;
      TwoOrMore();
      assert Use(slabs)[full] == slab.inuse;
      OrderedTake(Use(slabs), numObjs, full, partial);
      obj := TakeFrom(slab, full);
      NextItem(full);
      if slab.inuse == 1 {
        partial := full + 1;
      }
      if slab.free == NONE {
        firstNotFull := slab.item.next;
        full := full + 1;
      }
    }

    /** An object from the first slab that has one; a new slab is made exactly
        when every slab is full. A counter that is wrong stays as wrong. */
    method AllocObj() returns (obj: Obj)
      requires Shape()
      modifies this, (set s | s in slabs), (set r | r in Ring(slabList, slabs))
      ensures Shape() && obj !in old(Live()) && Live() == old(Live()) + {obj}
      ensures if old(full) < |old(slabs)| then slabs == old(slabs)
              else |slabs| == |old(slabs)| + 1 && slabs[..|old(slabs)|] == old(slabs)
                   && fresh(slabs[|old(slabs)|]) && fresh(slabs[|old(slabs)|].item)
      ensures old(full) < |slabs| && obj.slab == slabs[old(full)]
      ensures old(full) == old(partial) ==> obj.slab.inuse == 1 && partial == old(partial) + 1
      ensures old(full) < old(partial) ==> partial == old(partial)
      ensures old(full) < |old(slabs)| ==> obj.slab.inuse == old(slabs[full].inuse) + 1
      ensures full == if obj.slab.inuse == numObjs then old(full) + 1 else old(full)
      ensures forall s {:trigger s in old(slabs)} | s in old(slabs) && s != obj.slab :: s.inuse == old(s.inuse)
      ensures Drift() == old(Drift()) && released == old(released) && (old(Valid()) ==> Valid())
    {
      hide Linkage, Ordered, ObjsOf, Slab.Valid, Slab.Live, Linked, Lives;
      NoneFree();
      Bounds();
      var slab: Slab;
      if firstNotFull == slabList {
        slab := NewSlab();
      } else {
        EntryIs(full);
        TwoOrMore();
        assert Use(slabs)[full] == slabs[full].inuse;
        OrderedTake(Use(slabs), numObjs, full, partial);
        slab := firstNotFull.entry;
        if slab.inuse == 0 {
          numFreeSlabs := numFreeSlabs - 1;
        }
      }
      obj := TakeObj(slab);
    }

    lemma EntryIs(i: nat)
      requires Linkage() && i < |slabs|
      ensures slabs[i].item.entry == slabs[i]
    {
    }

    // ----- freeing --------------------------------------------------------

    /** The slab, the i-th of the ring, goes in front of t, which makes it the
        j-th. */
    method MoveTo(slab: Slab, t: ListHead<Slab?>, ghost i: nat, ghost j: nat)
      requires Linked(Ring(slabList, slabs)) && i < |slabs| && j < |slabs| && slab == slabs[i]
      requires t == Removed(Ring(slabList, slabs), i + 1)[if j + 1 < |slabs| then j + 1 else 0]
      modifies (set r | r in Ring(slabList, slabs))`prev, (set r | r in Ring(slabList, slabs))`next
      ensures Linked(Ring(slabList, Moved(slabs, i, j)))
    {
      hide Linked, Ring, Added, Removed, NoDup, Moved, Joined;
      ghost var ring := Ring(slabList, slabs);
      ghost var rest, k := Removed(ring, i + 1), if j + 1 < |slabs| then j + 1 else 0;
      RingMoved(slabList, slabs, i, j);
      Around(ring, i + 1);
      RestOf(ring, i + 1);
      slab.item.Remove(ring, i + 1);
      Around(rest, k);
      t.Add(slab.item, rest, k);
    }

    static lemma Around(ring: seq<ListHead<Slab?>>, k: nat)
      requires Linked(ring) && k < |ring|
      ensures ring[k] in ring && ring[k].prev in ring && ring[k].next in ring && NoDup(ring)
    {
      var j := if k == 0 then |ring| - 1 else k - 1;
      assert Joined(ring, j) && Joined(ring, k);
    }

    static lemma RestOf(ring: seq<ListHead<Slab?>>, k: nat)
      requires Linked(ring) && k < |ring|
      ensures ring[k] !in Removed(ring, k)
      ensures forall r {:trigger r in Removed(ring, k)} :: r in Removed(ring, k) ==> r in ring
    {
    }

    method Reorder(slab: Slab, t: ListHead<Slab?>, ghost i: nat, ghost j: nat)
      requires Linkage() && i < |slabs| && j < |slabs| && slab == slabs[i]
      requires t == Removed(Ring(slabList, slabs), i + 1)[if j + 1 < |slabs| then j + 1 else 0]
      modifies this`slabs, (set r | r in Ring(slabList, slabs))`prev, (set r | r in Ring(slabList, slabs))`next
      ensures Linkage() && slabs == Moved(old(slabs), i, j)
      ensures Use(slabs) == Moved(old(Use(slabs)), i, j) && Live() == old(Live())
    {
      hide Linked, Slab.Valid, Slab.Live, ObjsOf, Moved, NoDup, Joined, Ring, Removed, Use, Lives;
      MoveTo(slab, t, i, j);
      StateMoved(slabs, i, j);
      ObjsMoved(slabs, Lives(slabs), i, j);
      slabs := Moved(slabs, i, j);
      forall y {:trigger slabs[y]} | 0 <= y < |slabs|
        ensures Ring(slabList, slabs)[y+1] == slabs[y].item && Sound(slabs[y])
      {
        MovedAt(old(slabs), i, j, y);
      }
    }

    /** The last slabs from the m-th on are empty, and the one in front of them
        is not. */
    ghost predicate EmptyFrom(m: nat)
      reads this`slabs, set s | s in slabs
    {
      && m <= |slabs| && (m > 0 ==> slabs[m-1].inuse != 0)
      && forall j {:trigger slabs[j]} :: m <= j < |slabs| ==> slabs[j].inuse == 0
    }

    /** The slabs of was that are released and linked to nothing: all from the
        k-th on. */
    ghost predicate Gone(was: seq<Slab>, k: nat)
      reads this`released, set j: nat | j < |was| :: was[j].item
    {
      forall j {:trigger was[j]} :: k <= j < |was| ==>
        was[j] in released && was[j].item.prev == was[j].item && was[j].item.next == was[j].item
    }

    lemma GoneOutside(was: seq<Slab>, k: nat)
      requires k <= |was| && slabs == was[..k] && NoDup(Ring(slabList, was))
      ensures forall j {:trigger was[j]} :: k <= j < |was| ==> was[j].item !in Ring(slabList, slabs)
    {
      RingCut(slabList, was, k);
    }

    /** The slabs of was behind those that are left are released. */
    ghost predicate Dropped(was: seq<Slab>, before: set<Slab>)
      reads this`slabs, this`released, set j: nat | j < |was| :: was[j].item
    {
      && slabs <= was && Gone(was, |slabs|)
      && released == before + Members(was[|slabs|..])
    }

    /** The loop of reclaim. */
    method Release(n: int, ghost m: nat) returns (i: int)
      requires Linkage() && Boundary() && full <= m && EmptyFrom(m)
      modifies this`firstNotFull, this`slabs, this`released
      modifies (set r | r in Ring(slabList, slabs))`prev, (set r | r in Ring(slabList, slabs))`next
      ensures i == AtMost(n, |old(slabs)| - m) && slabs == old(slabs)[..|old(slabs)| - i]
      ensures Linkage() && Live() == old(Live())
      ensures firstNotFull == FirstOrBelow(|old(slabs)|)
      ensures Dropped(old(slabs), old(released))
    {
      hide Linkage, ObjsOf, Slab.Valid, Slab.Live, Lives, Ring, NoDup, Dropped;
      RingOnce();
      DroppedNone();
      i := 0;
      while i < n && slabList.prev != slabList
        invariant 0 <= i <= |old(slabs)| - m && (n >= 0 ==> i <= n) && (n < 0 ==> i == 0)
        invariant slabs == old(slabs)[..|old(slabs)| - i] && Linkage() && Live() == old(Live())
        invariant firstNotFull == FirstOrBelow(|old(slabs)|)
        invariant forall r {:trigger r in Ring(slabList, slabs)} ::
                    r in Ring(slabList, slabs) ==> r in Ring(slabList, old(slabs))
        invariant Dropped(old(slabs), old(released))
        decreases n - i
      {
        LastItem();
        RingPrefix(slabList, slabs, |slabs| - 1);
        var pos := slabList.prev;
        var slab := pos.entry;
        if slab.inuse != 0 {
          break;
        }
        i := i + 1;
        ReleaseLast(pos, old(slabs), old(released));
      }
      LastItem();
    }

    lemma DroppedNone()
      ensures Dropped(slabs, released)
    {
    }

    /** The end of the loop's body: the last slab is released. */
    method ReleaseLast(pos: ListHead<Slab?>, ghost was: seq<Slab>, ghost before: set<Slab>)
      requires Linkage() && slabs != [] && pos == slabs[|slabs|-1].item && slabs[|slabs|-1].inuse == 0
      requires slabs <= was && NoDup(Ring(slabList, was)) && Dropped(was, before)
      requires full <= |slabs| - 1 && firstNotFull == FirstOrBelow(|was|)
      modifies this`firstNotFull, this`slabs, this`released
      modifies (set r | r in Ring(slabList, slabs))`prev, (set r | r in Ring(slabList, slabs))`next
      ensures Linkage() && slabs == old(slabs)[..|old(slabs)|-1] && Live() == old(Live())
      ensures firstNotFull == FirstOrBelow(|was|) && Dropped(was, before)
    {
      hide Linkage, ObjsOf, Slab.Valid, Slab.Live, Lives, Ring, NoDup;
      LastItem();
      RingPrefix(slabList, slabs, |slabs| - 1);
      GoneOutside(was, |slabs|);
      MembersMore(was, |slabs| - 1);
      if firstNotFull == pos {
        firstNotFull := pos.prev;
      }
      DropLast(pos);
    }

    /** reclaim: up to n empty slabs are released, from the end on. */
    method Reclaim(n: int, ghost m: nat) returns (i: int)
      requires Linkage() && Boundary() && full <= m && EmptyFrom(m)
      requires forall j {:trigger slabs[j]} :: 0 <= j < full ==> slabs[j].inuse == numObjs
      modifies this`firstNotFull, this`numFreeSlabs, this`slabs, this`released
      modifies (set r | r in Ring(slabList, slabs))`prev, (set r | r in Ring(slabList, slabs))`next
      ensures i == AtMost(n, |old(slabs)| - m) && slabs == old(slabs)[..|old(slabs)| - i]
      ensures Linkage() && Boundary() && Live() == old(Live())
      ensures numFreeSlabs == old(numFreeSlabs) + counterStep * i
      ensures Dropped(old(slabs), old(released))
    {
      hide ObjsOf, Slab.Valid, Slab.Live, Lives, NoDup, Linked, Dropped;
      var t := firstNotFull;
      RingOnce();
      RingCut(slabList, slabs, full);
      i := Release(n, m);
      Settle(t, |old(slabs)|);
      numFreeSlabs := numFreeSlabs + counterStep * i;
    }

    lemma RingOnce()
      requires Linkage()
      ensures NoDup(Ring(slabList, slabs))
    {
    }

    /** The end of reclaim: a boundary that is gone is the list head. */
    method Settle(t: ListHead<Slab?>, ghost m: nat)
      requires Linkage() && full <= |slabs| <= m && firstNotFull == FirstOrBelow(m)
      requires full > 0 ==> slabs[full-1].inuse == numObjs
      requires if full < |slabs| then t == slabs[full].item
               else if full == m then t == slabList
               else t !in Ring(slabList, slabs)
      modifies this`firstNotFull
      ensures Boundary()
    {
      hide Slab.Valid, Linked;
      if firstNotFull != t && firstNotFull != slabList {
        var slab := firstNotFull.entry;
        if slab.inuse == numObjs {
          firstNotFull := slabList;
        }
      }
    }

    /** Where firstNotFull stands while reclaim works its way down from m
        slabs: in front of the boundary once the boundary is gone. */
    ghost function FirstOrBelow(m: nat): ListHead<Slab?>
      requires full <= |slabs| <= m
      reads this`full, this`slabs
    {
      if full < |slabs| then slabs[full].item
      else if full == m then slabList
      else Ring(slabList, slabs)[full]
    }

    /** What stands in front of the list head, and in front of that. */
    lemma LastItem()
      requires Linkage()
      ensures numObjs >= 2 && slabList.prev == Ring(slabList, slabs)[|slabs|]
      ensures slabs != [] ==>
        var s := slabs[|slabs|-1];
        && s.item == slabList.prev && s.item != slabList && s.item.entry == s
        && s.item.prev == Ring(slabList, slabs)[|slabs|-1]
        && forall j {:trigger slabs[j]} :: 0 <= j < |slabs| - 1 ==> slabs[j].item != s.item
    {
      hide Slab.Valid;
      SlabsDiffer(slabList, slabs);
      assert Joined(Ring(slabList, slabs), |slabs|);
      if slabs != [] {
        assert Joined(Ring(slabList, slabs), |slabs| - 1);
      }
    }

    static lemma RemovedLast(slabs: seq<Slab>)
      requires slabs != []
      ensures Removed(slabs, |slabs| - 1) == slabs[..|slabs|-1]
      ensures slabs == slabs[..|slabs|-1] + [slabs[|slabs|-1]]
    {
    }

    method DropLast(pos: ListHead<Slab?>)
      requires Linkage() && slabs != [] && pos == slabs[|slabs|-1].item && slabs[|slabs|-1].inuse == 0
      modifies this`slabs, this`released, (set r | r in Ring(slabList, slabs))`prev,
               (set r | r in Ring(slabList, slabs))`next
      ensures Linkage() && slabs == old(slabs)[..|old(slabs)|-1] && Live() == old(Live())
      ensures pos.prev == pos.next == pos && released == old(released) + {old(slabs)[|old(slabs)|-1]}
    {
      hide Linked, Slab.Valid, Slab.Live, ObjsOf, NoDup, Joined, Ring, Removed;
      ghost var rest, last := slabs[..|slabs|-1], slabs[|slabs|-1];
      Around(Ring(slabList, slabs), |slabs|);
      RingRemove(slabList, slabs, |slabs| - 1);
      RemovedLast(slabs);
      EmptyLive(|slabs| - 1);
      LastSlab(rest, last);
      ObjsAddEmpty(rest, Lives(rest), last);
      pos.Remove(Ring(slabList, slabs), |slabs|);
      slabs := rest;
      released := released + {last};
    }

    lemma EmptyLive(i: nat)
      requires Linkage() && i < |slabs| && slabs[i].inuse == 0
      ensures slabs[i].Live() == {}
    {
      slabs[i].LiveCount();
    }

    /** Which slab of the ring a live object belongs to. */
    lemma LiveAt(p: Obj) returns (i: nat)
      requires Linkage() && p in Live()
      ensures i < |slabs| && slabs[i] == p.slab && p.index in p.slab.Live()
    {
      hide Linkage, Slab.Live;
      ObjsAre(slabs, Lives(slabs), p);
      i :| i < |slabs| && slabs[i] == p.slab && p.index in Lives(slabs)[i];
    }

    /** p goes back to the free list of its slab, the i-th. */
    method PutBack(p: Obj, ghost i: nat) returns (was: int)
      requires Linkage() && i < |slabs| && p.slab == slabs[i] && p.index in p.slab.Live()
      modifies p.slab`inuse, p.slab`free, p.slab`next, p.slab`freeList
      ensures Linkage() && was == old(p.slab.inuse) && p.slab.inuse == was - 1 >= 0
      ensures Use(slabs) == old(Use(slabs)[i := p.slab.inuse - 1]) && Live() == old(Live()) - {p}
    {
      hide Linkage, ObjsOf, Slab.Live;
      ShapeAt(i);
      was := p.slab.Put(p.index);
      OneSlab(i);
      ObjsFewer(slabs, old(Lives(slabs)), i, p.index);
    }

    /** The case of freeObj in which the slab was full: it goes to the
        boundary. */
    method FreeFull(slab: Slab, ghost i: nat)
      requires Linkage() && Boundary() && i < full <= |slabs| && slab == slabs[i]
      modifies this`firstNotFull, this`slabs, this`full
      modifies (set r | r in Ring(slabList, slabs))`prev, (set r | r in Ring(slabList, slabs))`next
      ensures Linkage() && Boundary() && full == old(full) - 1
      ensures slabs == Moved(old(slabs), i, full)
      ensures Use(slabs) == Moved(old(Use(slabs)), i, full) && Live() == old(Live())
    {
      hide Linkage, ObjsOf, Slab.Valid, Slab.Live, Lives, Moved, Ring;
      MovedAt(slabs, i, full - 1, full - 1);
      NextItem(i);
      RingWithout(slabList, slabs, i, full - 1);
      BoundaryNext(i);
      MovedNowhere(slabs, i);
      MovedNowhere(Use(slabs), i);
      var t := firstNotFull;
      var pos := slab.item;
      firstNotFull := pos;
      if pos.next != t {
        Reorder(slab, t, i, full - 1);
      }
      full := full - 1;
    }

    /** The node behind a full slab is the boundary only for the last one. */
    lemma BoundaryNext(i: nat)
      requires Linkage() && Boundary() && i < full <= |slabs|
      ensures slabs[i].item.next == firstNotFull <==> i + 1 == full
    {
      hide Slab.Valid;
      NextItem(i);
      SlabsDiffer(slabList, slabs);
      var ring := Ring(slabList, slabs);
      assert i + 1 < |slabs| ==> ring[i+2] == slabs[i+1].item;
      assert full < |slabs| ==> ring[full+1] == slabs[full].item;
    }

    /** The part of freeObj that takes an empty slab, the i-th, to the end. If
        the slab is out of the ring already, its own links lead to itself and
        it is put in again. */
    method ToEnd(slab: Slab, ghost i: nat)
      requires Linkage() && Boundary()
      requires slab in slabs ==> full <= i < |slabs| && slab == slabs[i]
      requires slab !in slabs ==> Outside(slab)
      modifies this`firstNotFull, this`slabs
      modifies (set r | r in Ring(slabList, slabs))`prev, (set r | r in Ring(slabList, slabs))`next
      modifies slab.item`prev, slab.item`next
      ensures Linkage() && Live() == old(Live())
      ensures old(slab in slabs) ==>
        && Boundary() && slabs == Moved(old(slabs), i, |old(slabs)| - 1)
        && Use(slabs) == Moved(old(Use(slabs)), i, |old(slabs)| - 1)
      ensures old(slab !in slabs) ==> slabs == old(slabs) + [slab] && Use(slabs) == old(Use(slabs)) + [0]
    {
      hide Linkage, ObjsOf, Slab.Valid, Slab.Live, Lives, Moved, Ring;
      ghost var inside := slab in slabs;
      var t := firstNotFull.prev;
      if inside {
        PrevItem(full);
        ItemIs(full, i);
        RingWithout(slabList, slabs, i, |slabs| - 1);
        MovedAt(slabs, i, |slabs| - 1, full);
        if full > 0 {
          MovedAt(slabs, i, |slabs| - 1, full - 1);
        }
      }
      PutLast(slab, i);
      if inside {
        HeadNext();
        if full > 0 {
          NextItem(full - 1);
        }
      }
      if firstNotFull == slab.item {
        firstNotFull := t.next;
      }
    }

    /** The slab is out of the ring and linked to nothing. */
    ghost predicate Outside(slab: Slab)
      reads this`slabs, slab, slab.item
    {
      && Sound(slab) && slab.inuse == 0
      && slab.item.prev == slab.item.next == slab.item && slab.item !in Ring(slabList, slabs)
    }

    /** The nodes that stay when slab, the i-th, is out of the ring. */
    ghost function Rest(slab: Slab, i: nat): seq<ListHead<Slab?>>
      requires slab in slabs ==> i < |slabs|
      reads this`slabs
    {
      if slab in slabs then Removed(Ring(slabList, slabs), i + 1) else Ring(slabList, slabs)
    }

    /** remove: also of a slab that is out of the ring already. */
    method TakeOff(slab: Slab, ghost i: nat)
      requires Linked(Ring(slabList, slabs))
      requires slab in slabs ==> i < |slabs| && slab == slabs[i]
      requires slab !in slabs ==> Outside(slab)
      modifies (set r | r in Ring(slabList, slabs))`prev, (set r | r in Ring(slabList, slabs))`next
      modifies slab.item`prev, slab.item`next
      ensures Linked(Rest(slab, i))
    {
      hide Ring, Added, Removed, NoDup, Moved, Slab.Valid;
      ghost var ring := Ring(slabList, slabs);
      ghost var inside := slab in slabs;
      if inside {
        Around(ring, i + 1);
      } else {
        LinkedAlone(slab.item);
      }
      slab.item.Remove(if inside then ring else [slab.item], if inside then i + 1 else 0);
      if !inside {
        forall y | 0 <= y < |ring|
          ensures Joined(ring, y)
        {
          assert old(Joined(ring, y)) && ring[y] in ring;
        }
      }
    }

    /** remove, and add to the list head. */
    method RelinkLast(slab: Slab, ghost i: nat)
      requires Linked(Ring(slabList, slabs))
      requires slab in slabs ==> i < |slabs| && slab == slabs[i]
      requires slab !in slabs ==> Outside(slab)
      modifies (set r | r in Ring(slabList, slabs))`prev, (set r | r in Ring(slabList, slabs))`next
      modifies slab.item`prev, slab.item`next
      ensures slab in slabs ==> Linked(Ring(slabList, Moved(slabs, i, |slabs| - 1)))
      ensures slab !in slabs ==> Linked(Ring(slabList, slabs + [slab]))
    {
      hide Linked, Ring, Added, Removed, NoDup, Moved, Joined, Slab.Valid;
      ghost var ring := Ring(slabList, slabs);
      ghost var rest := Rest(slab, i);
      if slab in slabs {
        RingMoved(slabList, slabs, i, |slabs| - 1);
        RestOf(ring, i + 1);
        RestHead(ring, i + 1);
      } else {
        RingAddLast(slabList, slabs, slab);
      }
      TakeOff(slab, i);
      Around(rest, 0);
      slabList.Add(slab.item, rest, 0);
    }

    static lemma RestHead(ring: seq<ListHead<Slab?>>, k: nat)
      requires 0 < k < |ring|
      ensures |Removed(ring, k)| > 0 && Removed(ring, k)[0] == ring[0]
    {
    }

    static lemma LinkedAlone(item: ListHead<Slab?>)
      requires item.prev == item.next == item
      ensures Linked([item]) && Removed([item], 0) == []
    {
    }

    method PutLast(slab: Slab, ghost i: nat)
      requires Linkage()
      requires slab in slabs ==> i < |slabs| && slab == slabs[i]
      requires slab !in slabs ==> Outside(slab)
      modifies this`slabs, (set r | r in Ring(slabList, slabs))`prev, (set r | r in Ring(slabList, slabs))`next
      modifies slab.item`prev, slab.item`next
      ensures Linkage() && Live() == old(Live())
      ensures old(slab in slabs) ==>
        slabs == Moved(old(slabs), i, |old(slabs)| - 1) && Use(slabs) == Moved(old(Use(slabs)), i, |old(slabs)| - 1)
      ensures old(slab !in slabs) ==> slabs == old(slabs) + [slab] && Use(slabs) == old(Use(slabs)) + [0]
    {
      hide Linked, Slab.Valid, Slab.Live, ObjsOf, Moved, NoDup, Joined, Ring, Removed, Use, Lives;
      ghost var inside := slab in slabs;
      RelinkLast(slab, i);
      if inside {
        StateMoved(slabs, i, |slabs| - 1);
        ObjsMoved(slabs, Lives(slabs), i, |slabs| - 1);
        slabs := Moved(slabs, i, |slabs| - 1);
        forall y {:trigger slabs[y]} | 0 <= y < |slabs|
          ensures Ring(slabList, slabs)[y+1] == slabs[y].item && Sound(slabs[y])
        {
          MovedAt(old(slabs), i, |old(slabs)| - 1, y);
        }
      } else {
        LastSlab(slabs, slab);
        NoneLive(slab);
        ObjsAddEmpty(slabs, Lives(slabs), slab);
        slabs := slabs + [slab];
        LinkageMore(slab);
      }
    }

    lemma NoneLive(slab: Slab)
      requires Sound(slab) && slab.inuse == 0
      ensures slab.Live() == {}
    {
      slab.LiveCount();
    }

    lemma PrevItem(i: nat)
      requires Linkage() && i < |slabs|
      ensures slabs[i].item.prev == if i == 0 then slabList else slabs[i-1].item
    {
      hide Slab.Valid;
      assert Joined(Ring(slabList, slabs), i);
      assert i > 0 ==> Ring(slabList, slabs)[i] == slabs[i-1].item;
    }

    lemma HeadNext()
      requires Linkage()
      ensures slabList.next == if slabs == [] then slabList else slabs[0].item
    {
      hide Slab.Valid;
      assert Joined(Ring(slabList, slabs), 0);
    }

    lemma ItemIs(i: nat, j: nat)
      requires Linkage() && i < |slabs| && j < |slabs|
      ensures slabs[i].item == slabs[j].item <==> i == j
    {
      hide Slab.Valid;
      var ring := Ring(slabList, slabs);
      assert ring[i+1] == slabs[i].item && ring[j+1] == slabs[j].item;
    }

    /** The slab that becomes empty is the last one that was not: the empty
        slabs begin with it. */
    ghost predicate IsLast(i: nat)
      reads this`partial
    {
      i + 1 == partial
    }

    /** reclaim is asked for more slabs than were empty before, so that it
        releases the i-th, which is still to be moved. */
    ghost predicate TooMany(i: nat)
      reads this`numFreeSlabs, this`slabs, this`partial
    {
      IsLast(i) && numFreeSlabs + 1 - MAX_FREE_SLABS > |slabs| - partial
    }

    /** The case of freeObj in which the slab becomes empty. */
    method FreeLast(slab: Slab, ghost i: nat, ghost use: seq<int>)
      requires Linkage() && Boundary() && Ordered(use, numObjs, full, partial) && Intact()
      requires full <= i < |slabs| == |use| && slab == slabs[i] && use[i] == 1 && Use(slabs) == use[i := 0]
      modifies this`firstNotFull, this`slabs, this`numFreeSlabs, this`partial, this`released
      modifies (set r | r in Ring(slabList, slabs))`prev, (set r | r in Ring(slabList, slabs))`next
      ensures Linkage() && Live() == old(Live()) && full == old(full) && partial == old(partial) - 1
      ensures Ordered(Use(slabs), numObjs, full, partial) && slab in slabs
      ensures forall s {:trigger s in slabs} | s in slabs :: s in old(slabs)
      ensures old(TooMany(i)) ==>
        && slabs == old(slabs)[..partial] + [slab] && slab in released
        && numFreeSlabs == old(numFreeSlabs) + 1 + counterStep * (|old(slabs)| - partial)
      ensures !old(TooMany(i)) ==>
        var c := AtMost(old(numFreeSlabs) + 1 - MAX_FREE_SLABS, |old(slabs)| - old(partial));
        Shape() && |slabs| == |old(slabs)| - c && numFreeSlabs == old(numFreeSlabs) + 1 + counterStep * c
    {
      hide Linkage, ObjsOf, Slab.Valid, Slab.Live, Lives, Moved, Ring, Dropped, Outside, Ordered, Use, NoDup,
           Members, Boundary;
      ghost var was, before := slabs, released;
      SlabsOnce();
      CountLast(slab, i, use);
      OrderedFree(use, numObjs, full, partial, i, |slabs|);
      ghost var left := slabs;
      ToEnd(slab, i);
      IntactNow(slab, i, was, left, before);
      partial := partial - 1;
    }

    /** The count, and where the slab is behind it. */
    method CountLast(slab: Slab, ghost i: nat, ghost use: seq<int>)
      requires Linkage() && Boundary() && Ordered(use, numObjs, full, partial)
      requires full <= i < |slabs| == |use| && slab == slabs[i] && use[i] == 1 && Use(slabs) == use[i := 0]
      modifies this`firstNotFull, this`slabs, this`numFreeSlabs, this`released
      modifies (set r | r in Ring(slabList, slabs))`prev, (set r | r in Ring(slabList, slabs))`next
      ensures partial <= |old(slabs)|
      ensures var m := if IsLast(i) then partial - 1 else partial;
              var c := AtMost(old(numFreeSlabs) + 1 - MAX_FREE_SLABS, |old(slabs)| - m);
              slabs == old(slabs)[..|old(slabs)| - c] && numFreeSlabs == old(numFreeSlabs) + 1 + counterStep * c
      ensures released == old(released) + Members(old(slabs)[|slabs|..])
      ensures Use(slabs) == use[i := 0][..|slabs|] && (partial <= |slabs| || (i == |slabs| && i + 1 == partial))
      ensures slab in slabs ==> i < |slabs| && slab == slabs[i]
      ensures slab !in slabs ==> Outside(slab)
      ensures forall r {:trigger r in Ring(slabList, slabs)} ::
                r in Ring(slabList, slabs) ==> r in Ring(slabList, old(slabs))
      ensures Linkage() && Boundary() && Live() == old(Live())
    {
      hide Linkage, ObjsOf, Slab.Valid, Slab.Live, Lives, Moved, Ring, Outside, EmptyFrom, Ordered, NoDup, Members;
      EmptyTail(use, i);
      SlabsOnce();
      RingOnce();
      ShapeAt(i);
      CountEmpty(i, if IsLast(i) then partial - 1 else partial);
      StillInside(slab, i, old(slabs), old(released));
      RingPrefix(slabList, old(slabs), |slabs|);
      UsePrefix(old(slabs), |slabs|);
    }

    /** What the numbers in use say about the end of the list. */
    lemma EmptyTail(use: seq<int>, i: nat)
      requires Ordered(use, numObjs, full, partial) && |slabs| == |use| && full <= i < |slabs|
      requires use[i] == 1 && Use(slabs) == use[i := 0]
      ensures i < partial <= |slabs| && slabs[i].inuse == 0
      ensures var m := if IsLast(i) then partial - 1 else partial; full <= m && EmptyFrom(m)
      ensures forall j {:trigger slabs[j]} :: 0 <= j < full ==> slabs[j].inuse == numObjs
    {
      forall j | 0 <= j < |slabs|
        ensures slabs[j].inuse == use[i := 0][j]
      {
        assert Use(slabs)[j] == slabs[j].inuse;
      }
    }

    /** Behind the count the slab is where it was, or out of the ring. */
    lemma StillInside(slab: Slab, i: nat, was: seq<Slab>, before: set<Slab>)
      requires i < |was| && slab == was[i] && NoDup(was) && NoDup(Ring(slabList, was))
      requires Sound(slab) && slab.inuse == 0 && Dropped(was, before)
      ensures slab in slabs <==> i < |slabs|
      ensures slab in slabs ==> slab == slabs[i]
      ensures slab !in slabs ==> Outside(slab)
    {
      hide Slab.Valid;
      if i < |slabs| {
        assert slabs[i] == slab;
      } else {
        GoneOutside(was, |slabs|);
      }
    }

    /** The ring holds no released slab exactly if the slab was not dropped. */
    lemma IntactNow(slab: Slab, i: nat, was: seq<Slab>, left: seq<Slab>, before: set<Slab>)
      requires i < |was| && slab == was[i] && NoDup(was) && left <= was && (i >= |left| ==> i == |left|)
      requires forall s | s in was :: s !in before
      requires released == before + Members(was[|left|..])
      requires slabs == if i < |left| then Moved(left, i, |left| - 1) else left + [slab]
      ensures Intact() <==> i < |left|
      ensures forall s {:trigger s in slabs} | s in slabs :: s in was
      ensures slab in slabs && (i >= |left| ==> slab in released)
    {
      if i < |left| {
        StateMoved(left, i, |left| - 1);
      } else {
        assert was[|left|..][0] == slab && slabs[|left|] == slab && was == left + was[|left|..];
        assert forall s {:trigger s in slabs} | s in slabs :: s in left || s == slab;
        assert slab in released && slab in slabs;
      }
    }

    /** One more slab is empty; those that are too many are released. */
    method CountEmpty(ghost i: nat, ghost m: nat)
      requires Linkage() && Boundary() && full <= i < |slabs| && full <= m && EmptyFrom(m) && slabs[i].inuse == 0
      requires forall j {:trigger slabs[j]} :: 0 <= j < full ==> slabs[j].inuse == numObjs
      modifies this`firstNotFull, this`slabs, this`numFreeSlabs, this`released
      modifies (set r | r in Ring(slabList, slabs))`prev, (set r | r in Ring(slabList, slabs))`next
      ensures Linkage() && Boundary() && Live() == old(Live())
      ensures var c := AtMost(old(numFreeSlabs) + 1 - MAX_FREE_SLABS, |old(slabs)| - m);
              slabs == old(slabs)[..|old(slabs)| - c] && numFreeSlabs == old(numFreeSlabs) + 1 + counterStep * c
      ensures Dropped(old(slabs), old(released))
    {
      hide Linkage, ObjsOf, Slab.Valid, Slab.Live, Lives, Moved, Ring, Dropped;
      numFreeSlabs := numFreeSlabs + 1;
      var n := numFreeSlabs - MAX_FREE_SLABS;
      if n > 0 {
        var _ := Reclaim(n, m);
      } else {
        DroppedNone();
      }
    }

    static lemma UsePrefix(slabs: seq<Slab>, m: nat)
      requires m <= |slabs|
      ensures Use(slabs[..m]) == Use(slabs)[..m]
    {
    }

    lemma WhichPart(i: nat)
      requires Shape() && i < |slabs|
      ensures slabs[i].inuse == numObjs ==> i < full
      ensures slabs[i].inuse < numObjs ==> full <= i
      ensures slabs[i].inuse == Use(slabs)[i] <= numObjs
      ensures full <= partial <= |slabs|
    {
      hide Slab.Valid;
      assert slabs[i].inuse == Use(slabs)[i];
    }

    /** freeObj is about to have the very slab released that it moves: the slab
        becomes empty, only empty slabs stand behind it, and the counter asks
        for more of them than there are. */
    ghost predicate ReleasesMoving(slab: Slab)
      requires partial <= |slabs|
      reads this, slab
    {
      && slab.inuse == 1 && 0 < partial && slabs[partial-1] == slab
      && numFreeSlabs + 1 - MAX_FREE_SLABS > |slabs| - partial
    }

    /** How many slabs freeObj has released when slab becomes empty. */
    ghost function Excess(slab: Slab): nat
      requires partial <= |slabs|
      reads this, slab
    {
      if slab.inuse == 1 then AtMost(numFreeSlabs + 1 - MAX_FREE_SLABS, |slabs| - partial) else 0
    }

    /** An object comes back, whatever the counter says. All is well exactly if
        the slab of the object is not released on the way; otherwise the ring
        ends with released memory. */
    method FreeObj(p: Obj)
      requires Shape() && p in Live()
      modifies this, (set s | s in slabs), (set r | r in Ring(slabList, slabs))
      ensures old(partial <= |slabs|)
      ensures Shape() <==> !old(ReleasesMoving(p.slab))
      ensures Linkage() && Ordered(Use(slabs), numObjs, full, partial) && Live() == old(Live()) - {p} && p.slab in slabs
      ensures partial == if old(p.slab.inuse) == 1 then old(partial) - 1 else old(partial)
      ensures full == if old(p.slab.inuse) == numObjs then old(full) - 1 else old(full)
      ensures p.slab.inuse == old(p.slab.inuse) - 1
      ensures forall s {:trigger s in old(slabs)} | s in old(slabs) && s != p.slab :: s.inuse == old(s.inuse)
      ensures forall s {:trigger s in slabs} | s in slabs :: s in old(slabs)
      ensures old(ReleasesMoving(p.slab)) ==>
        p.slab in released && slabs == old(slabs)[..old(partial) - 1] + [p.slab]
      ensures !old(ReleasesMoving(p.slab)) ==>
        && |slabs| == |old(slabs)| - old(Excess(p.slab))
        && Drift() == old(Drift()) + (counterStep + 1) * old(Excess(p.slab))
      ensures old(Valid()) ==>
        && !old(ReleasesMoving(p.slab)) && |slabs| - partial <= MAX_FREE_SLABS
        && (Valid() <==> counterStep == -1 || old(p.slab.inuse) > 1 || old(numFreeSlabs) < MAX_FREE_SLABS)
    {
      hide Linkage, ObjsOf, Slab.Valid, Slab.Live, Lives, Moved, Ring, Ordered, Use, NoDup, AtMost;
      ghost var i := LiveAt(p);
      ghost var use := Use(slabs);
      var slab := p.slab;
      WhichPart(i);
      TwoOrMore();
      LastIs(i);
      CapFacts(numFreeSlabs, |slabs| - partial, counterStep);
      var was := PutBack(p, i);
      assert slab == slabs[i];
      if was == numObjs {
        OrderedFull(use, numObjs, full, partial, i);
        MovedAt(slabs, i, full - 1, full - 1);
        FreeFull(slab, i);
        IntactMoved(old(slabs), i, full);
      } else if slab.inuse == 0 {
        FreeLast(slab, i, use);
      } else {
        OrderedPartial(use, numObjs, full, partial, i);
      }
    }

    lemma LastIs(i: nat)
      requires Linkage() && i < |slabs|
      ensures 0 < partial <= |slabs| ==> (slabs[partial-1] == slabs[i] <==> i + 1 == partial)
    {
      hide Slab.Valid;
      SlabsDiffer(slabList, slabs);
    }

    lemma IntactMoved(was: seq<Slab>, i: nat, j: nat)
      requires i < |was| && j < |was| && slabs == Moved(was, i, j) && forall s | s in was :: s !in released
      ensures Intact() && forall s {:trigger s in slabs} | s in slabs :: s in was
    {
      hide Moved;
      StateMoved(was, i, j);
    }

    /** The arithmetic of the count. */
    static lemma CapFacts(num: int, empty: nat, step: int)
      requires step == 1 || step == -1
      ensures var c := AtMost(num + 1 - MAX_FREE_SLABS, empty);
              && step * c + c == (step + 1) * c
              && (num == empty <= MAX_FREE_SLABS ==>
                    c == (if num == MAX_FREE_SLABS then 1 else 0) && num + 1 - MAX_FREE_SLABS <= empty)
    {
    }

    /** What reclaimAll asks of each cache: the empty slabs are released, up to
        0xffff of them, and no others. */
    method ReclaimEmpty() returns (i: int)
      requires Shape()
      modifies this`firstNotFull, this`numFreeSlabs, this`slabs, this`released
      modifies (set r | r in Ring(slabList, slabs))`prev, (set r | r in Ring(slabList, slabs))`next
      ensures partial <= |old(slabs)| && i == AtMost(0xffff, |old(slabs)| - partial)
      ensures Shape() && Live() == old(Live()) && slabs == old(slabs)[..|old(slabs)| - i]
      ensures Drift() == old(Drift()) + (counterStep + 1) * i
      ensures old(Valid()) ==> (Valid() <==> counterStep == -1 || old(partial) == |old(slabs)|)
    {
      hide Linkage, ObjsOf, Slab.Valid, Slab.Live, Lives, Ring, Use, Ordered, Dropped, NoDup, AtMost;
      OrderFacts(Use(slabs));
      TwoOrMore();
      ghost var empty := |slabs| - partial;
      CapAll(empty, counterStep);
      OrderedCut(Use(slabs), numObjs, full, partial, |slabs| - AtMost(0xffff, empty));
      UsePrefix(slabs, |slabs| - AtMost(0xffff, empty));
      SlabsOnce();
      i := Reclaim(0xffff, partial);
      IntactCut(old(slabs), old(released));
    }

    static lemma CapAll(empty: nat, step: int)
      requires step == 1 || step == -1
      ensures var c := AtMost(0xffff, empty);
              c <= empty && step * c + c == (step + 1) * c && (empty <= MAX_FREE_SLABS ==> c == empty)
    {
    }

    lemma IntactCut(was: seq<Slab>, before: set<Slab>)
      requires Dropped(was, before) && NoDup(was) && forall s | s in was :: s !in before
      ensures Intact()
    {
    }

    lemma SlabsOnce()
      requires Linkage()
      ensures NoDup(slabs)
    {
      SlabsDiffer(slabList, slabs);
    }

    lemma OrderFacts(use: seq<int>)
      requires Ordered(use, numObjs, full, partial) && use == Use(slabs) && Linkage()
      ensures full <= partial <= |slabs| && numObjs >= 2
      ensures forall j {:trigger slabs[j]} :: 0 <= j < full ==> slabs[j].inuse == numObjs
      ensures forall j {:trigger slabs[j]} :: partial <= j < |slabs| ==> slabs[j].inuse == 0
      ensures 0 < partial ==> slabs[partial-1].inuse != 0
    {
      forall j {:trigger slabs[j]} | 0 <= j < |slabs|
        ensures slabs[j].inuse == use[j]
      {
        assert Use(slabs)[j] == slabs[j].inuse;
      }
    }
  }

  /** With the counter as the code has it: one object is taken and given back,
      the empty slab is reclaimed, and two empty slabs are counted where there
      is none. */
  method CounterDrifts() returns (c: Cache)
    ensures c.counterStep == 1 && c.Shape() && c.slabs == [] && c.numFreeSlabs == 2 && !c.Valid()
  {
    hide Cache.Valid, Cache.Shape, Ordered, Cache.Live, Ring;
    c := new Cache(2, 1);
    BoundsOf(c);
    var p := c.AllocObj();
    BoundsOf(c);
    c.FreeObj(p);
    BoundsOf(c);
    var _ := c.ReclaimEmpty();
  }

  lemma BoundsOf(c: Cache)
    requires c.Valid()
    ensures c.Shape() && c.full <= c.partial <= |c.slabs| && c.numFreeSlabs == |c.slabs| - c.partial
  {
  }

  // ----- the run that fails -----------------------------------------------

  /** All that the cache works on is new. */
  twostate predicate Own(new c: Cache)
    reads c
  {
    forall s {:trigger s in c.slabs} | s in c.slabs :: fresh(s) && fresh(s.item)
  }

  /** Both objects of a full slab of two. */
  ghost predicate PairAt(c: Cache, p: Obj, q: Obj)
    reads c`slabs, set s | s in c.slabs
  {
    p in c.Live() && q in c.Live() && p != q && p.slab == q.slab && p.slab in c.slabs && p.slab.inuse == 2
  }

  /** The objects of all slabs that are not empty, which are all full. */
  ghost predicate Pairs(c: Cache, a: seq<Obj>, b: seq<Obj>)
    reads c`slabs, c`full, c`partial, set s | s in c.slabs
  {
    && |a| == |b| == c.full == c.partial <= |c.slabs|
    && (forall j {:trigger a[j]} {:trigger b[j]} :: 0 <= j < |a| ==> PairAt(c, a[j], b[j]))
    && (forall i, j {:trigger a[i], a[j]} :: 0 <= i < j < |a| ==> a[i].slab != a[j].slab)
  }

  /** One more full slab. */
  method FillOne(c: Cache, a: seq<Obj>, b: seq<Obj>) returns (p: Obj, q: Obj)
    requires c.Valid() && c.numObjs == 2 && Pairs(c, a, b) && c.full == |c.slabs|
    modifies c, (set s | s in c.slabs), (set r | r in Ring(c.slabList, c.slabs))
    ensures c.Valid() && Pairs(c, a + [p], b + [q]) && |c.slabs| == |old(c.slabs)| + 1
    ensures forall s {:trigger s in c.slabs} | s in c.slabs :: s in old(c.slabs) || (fresh(s) && fresh(s.item))
  {
    hide Cache.Valid, Cache.Shape, Ordered, Cache.Live, Ring;
    BoundsOf(c);
    p := c.AllocObj();
    BoundsOf(c);
    RingItems(c.slabList, c.slabs);
    RingItems(c.slabList, old(c.slabs));
    q := c.AllocObj();
    BoundsOf(c);
  }

  /** Both objects of the last of these slabs come back: it is empty. */
  method EmptyOne(c: Cache, a: seq<Obj>, b: seq<Obj>)
    requires c.Valid() && c.numObjs == 2 && c.counterStep == 1 && Pairs(c, a, b) && a != []
    modifies c, (set s | s in c.slabs), (set r | r in Ring(c.slabList, c.slabs))
    ensures c.Shape() && Pairs(c, a[..|a|-1], b[..|a|-1])
    ensures forall s {:trigger s in c.slabs} | s in c.slabs :: s in old(c.slabs)
    ensures old(c.numFreeSlabs) < MAX_FREE_SLABS ==> c.Valid() && |c.slabs| == |old(c.slabs)|
    ensures old(c.numFreeSlabs) == MAX_FREE_SLABS ==> c.Drift() == 2 && |c.slabs| == |old(c.slabs)| - 1
  {
    hide Cache.Valid, Cache.Shape, Ordered, Cache.Live, Ring;
    BoundsOf(c);
    c.FreeObj(b[|a|-1]);
    BoundsOf(c);
    RingItems(c.slabList, c.slabs);
    RingItems(c.slabList, old(c.slabs));
    c.FreeObj(a[|a|-1]);
    forall j {:trigger a[j]} {:trigger b[j]} | 0 <= j < |a| - 1
      ensures PairAt(c, a[j], b[j])
    {
      assert old(PairAt(c, a[j], b[j])) && a[j].slab != a[|a|-1].slab;
      SlabOf(c, a[j]);
    }
  }

  lemma SlabOf(c: Cache, p: Obj)
    requires c.Shape() && p in c.Live()
    ensures p.slab in c.slabs
  {
    hide Cache.Linkage, Cache.Live, Ordered;
    var i := c.LiveAt(p);
  }

  /** One object is taken and given back, all slabs being empty. */
  method TakeAndGive(c: Cache) returns (p: Obj)
    requires c.Shape() && c.numObjs == 2 && c.counterStep == 1
    requires c.full == c.partial == 0 && c.slabs != [] && c.Drift() >= 0
    modifies c, (set s | s in c.slabs), (set r | r in Ring(c.slabList, c.slabs))
    ensures forall s {:trigger s in c.slabs} | s in c.slabs :: s in old(c.slabs)
    ensures c.partial == 0 && c.full == 0 && p.slab in c.slabs
    ensures old(c.Drift()) < MAX_FREE_SLABS ==>
      var i := AtMost(|old(c.slabs)| + old(c.Drift()) - MAX_FREE_SLABS, |old(c.slabs)| - 1);
      c.Shape() && |c.slabs| == |old(c.slabs)| - i && c.Drift() == old(c.Drift()) + 2 * i
    ensures old(c.Drift()) >= MAX_FREE_SLABS ==> !c.Shape() && p.slab in c.released
  {
    hide Cache.Shape, Ordered, Cache.Live, Ring, Cache.Valid;
    p := c.AllocObj();
    RingItems(c.slabList, c.slabs);
    RingItems(c.slabList, old(c.slabs));
    c.FreeObj(p);
  }

  /** The nodes of the ring. */
  lemma RingItems(head: ListHead<Slab?>, slabs: seq<Slab>)
    ensures head in Ring(head, slabs)
    ensures forall s {:trigger s in slabs} | s in slabs :: s.item in Ring(head, slabs)
    ensures forall r {:trigger r in Ring(head, slabs)} | r in Ring(head, slabs) ::
              r == head || exists s :: s in slabs && r == s.item
  {
    forall s | s in slabs
      ensures s.item in Ring(head, slabs)
    {
      var i :| 0 <= i < |slabs| && slabs[i] == s;
      assert Ring(head, slabs)[i+1] == s.item;
    }
    forall r | r in Ring(head, slabs)
      ensures r == head || exists s :: s in slabs && r == s.item
    {
      var y :| 0 <= y < |Ring(head, slabs)| && Ring(head, slabs)[y] == r;
      if y > 0 {
        assert slabs[y-1] in slabs && slabs[y-1].item == r;
      }
    }
  }

  /** With the counter as the code has it: nine slabs are filled and emptied;
      then one object is taken and given back three times. The last time
      freeObj releases the slab that it is about to move, and links the
      released memory into the ring. */
  method ReleasesMovedSlab() returns (c: Cache, p: Obj)
    ensures c.counterStep == 1 && p.slab in c.slabs && p.slab in c.released && !c.Shape()
  {
    hide Cache.Valid, Cache.Shape, Ordered, Cache.Live, Ring, Pairs;
    c := new Cache(2, 1);
    BoundsOf(c);
    var a, b := FillNine(c);
    while |a| > 1
      invariant 1 <= |a| <= 9 && c.Valid() && Pairs(c, a, b) && |c.slabs| == 9 && Own(c)
      decreases |a|
    {
      PairsCount(c, a, b);
      RingItems(c.slabList, c.slabs);
      EmptyOne(c, a, b);
      a, b := a[..|a|-1], b[..|a|-1];
    }
    PairsCount(c, a, b);
    RingItems(c.slabList, c.slabs);
    EmptyOne(c, a, b);
    PairsNone(c, a[..0], b[..0]);
    RingItems(c.slabList, c.slabs);
    p := TakeAndGive(c);
    RingItems(c.slabList, c.slabs);
    p := TakeAndGive(c);
    RingItems(c.slabList, c.slabs);
    p := TakeAndGive(c);
  }

  lemma PairsCount(c: Cache, a: seq<Obj>, b: seq<Obj>)
    requires c.Valid() && Pairs(c, a, b)
    ensures |a| == |b| && c.numFreeSlabs == |c.slabs| - |a|
  {
  }

  lemma PairsNone(c: Cache, a: seq<Obj>, b: seq<Obj>)
    requires Pairs(c, a, b)
    ensures c.full == c.partial == |a|
  {
  }

  /** Nine slabs, all full. */
  method FillNine(c: Cache) returns (a: seq<Obj>, b: seq<Obj>)
    requires c.Valid() && c.slabs == [] && c.numObjs == 2
    modifies c, c.slabList
    ensures c.Valid() && |a| == |c.slabs| == 9 && Pairs(c, a, b) && Own(c)
  {
    hide Cache.Valid, Cache.Shape, Ordered, Cache.Live;
    BoundsOf(c);
    a, b := [], [];
    while |a| < 9
      invariant c.Valid() && Pairs(c, a, b) && |c.slabs| == |a| <= 9 && Own(c)
      decreases 9 - |a|
    {
      RingItems(c.slabList, c.slabs);
      var p, q := FillOne(c, a, b);
      a, b := a + [p], b + [q];
    }
  }
}
