/** The tree of every input, told from its events alone: which node each event
    makes, and how deep it stands. */
module DomMeaning {
  import opened Chars
  import opened HtmlNodes
  import opened Options
  import opened TokenSpec
  import opened TokenTheorems
  import opened DomModel
  import opened Seqs

  predicate Opens(e: Event) { e.FoundTag? && !e.isEnd }

  predicate Closes(e: Event) { e.FoundTag? && e.isEnd }

  // ----- which tag closes which -------------------------------------------

  /** How many of the open tags stay when a tag of this name comes: those in
      front of the last one with that name. */
  function Level(events: seq<Event>, open: seq<nat>, name: string): (k: nat)
    requires forall i :: 0 <= i < |open| ==> open[i] < |events|
    ensures k <= |open|
    ensures k < |open| ==> EqualsIgnoreCase(events[open[k]].node.tagName, name)
    ensures forall i :: (if k < |open| then k < i else 0 <= i) && i < |open| ==>
              !EqualsIgnoreCase(events[open[i]].node.tagName, name)
    decreases |open|
  {
    if open == [] then 0
    else
      var n := |open| - 1;
      if EqualsIgnoreCase(events[open[n]].node.tagName, name) then n
      else
        var k := Level(events, open[..n], name);
        if k < n then k else |open|
  }

  /** The opening tags that are open behind the events, outermost first. */
  function OpenAt(events: seq<Event>): (r: seq<nat>)
    ensures forall i :: 0 <= i < |r| ==> r[i] < |events|
    ensures forall i, j :: 0 <= i < j < |r| ==> r[i] < r[j]
  {
    if events == [] then []
    else
      var n := |events| - 1;
      var open, e := OpenAt(events[..n]), events[n];
      if Opens(e) then open + [n]
      else if Closes(e) then open[..Level(events, open, e.node.tagName)]
      else open
  }

  /** The j-th event is the closing tag of the i-th, which is the innermost one
      of its name that is open. */
  predicate ClosedBy(events: seq<Event>, i: nat, j: nat) {
    && j < |events| && Closes(events[j])
    && var open := OpenAt(events[..j]);
       var k := Level(events, open, events[j].node.tagName);
       k < |open| && open[k] == i
  }

  predicate Unmatched(events: seq<Event>, j: nat) {
    && j < |events| && Closes(events[j])
    && var open := OpenAt(events[..j]);
       Level(events, open, events[j].node.tagName) == |open|
  }

  /** The i-th event makes a node of its own: all do but closing tags that
      close something. */
  predicate Makes(events: seq<Event>, i: nat) {
    i < |events| && (Closes(events[i]) ==> Unmatched(events, i))
  }

  /** The element of the i-th event holds what comes behind it: it is closed by
      a tag of its own, or it is still open at the end. */
  ghost predicate Holds(events: seq<Event>, i: nat) {
    i in OpenAt(events) || exists j: nat :: ClosedBy(events, i, j)
  }

  // ----- nodes and depths -------------------------------------------------

  /** The node that the i-th event makes. */
  ghost function NodeOf(events: seq<Event>, i: nat): HtmlNode
    requires i < |events|
  {
    var n := events[i].node;
    if Closes(events[i]) then n.(isTag := false, isComment := true)
    else if j: nat :| ClosedBy(events, i, j) then
      var c := events[j].node;
      n.(length := c.offset + c.length - n.offset, closingText := c.text)
    else n
  }

  /** How many of these elements hold what comes behind them. */
  ghost function Holding(events: seq<Event>, open: seq<nat>): nat {
    if open == [] then 0
    else Holding(events, open[..|open|-1]) + if Holds(events, open[|open|-1]) then 1 else 0
  }

  /** How deep the node of the i-th event stands: below the elements that are
      open there and do not give up what they hold. The root has depth 0. */
  ghost function DepthOf(events: seq<Event>, i: nat): nat
    requires i < |events|
  {
    1 + Holding(events, OpenAt(events[..i]))
  }

  /** What the events from a up to b make, in order. */
  ghost function Made(events: seq<Event>, a: nat, b: nat): seq<(HtmlNode, int)>
    requires a <= b <= |events|
    decreases b
  {
    if a == b then []
    else Made(events, a, b - 1) + if Makes(events, b - 1) then [(NodeOf(events, b - 1), DepthOf(events, b - 1))] else []
  }

  // ----- the nodes of a tree with their depths ----------------------------

  ghost function Listing(t: Tree, d: int): seq<(HtmlNode, int)>
    decreases t
  {
    [(t.node, d)] + ListingAll(t.kids, d + 1)
  }

  ghost function ListingAll(ts: seq<Tree>, d: int): seq<(HtmlNode, int)>
    decreases ts
  {
    if ts == [] then [] else Listing(ts[0], d) + ListingAll(ts[1..], d)
  }

  lemma {:induction false} ListingConcat(a: seq<Tree>, b: seq<Tree>, d: int)
    ensures ListingAll(a + b, d) == ListingAll(a, d) + ListingAll(b, d)
    decreases |a|
  {
    if a == [] {
      assert a + b == b;
    } else {
      assert (a + b)[1..] == a[1..] + b;
      ListingConcat(a[1..], b, d);
      Regroup(Listing(a[0], d), ListingAll(a[1..], d), ListingAll(b, d));
    }
  }

  lemma ListingOne(t: Tree, d: int)
    ensures ListingAll([t], d) == Listing(t, d)
  {
    assert [t][1..] == [];
    assert ListingAll([t], d) == Listing(t, d) + [];
  }

  /** All of it, so much less deep. */
  ghost function Raised(l: seq<(HtmlNode, int)>, k: int): seq<(HtmlNode, int)> {
    seq(|l|, i requires 0 <= i < |l| => (l[i].0, l[i].1 - k))
  }

  lemma RaisedConcat(a: seq<(HtmlNode, int)>, b: seq<(HtmlNode, int)>, k: int)
    ensures Raised(a + b, k) == Raised(a, k) + Raised(b, k)
  {
  }

  lemma {:induction false} ListingRaised(t: Tree, d: int, k: int)
    ensures Raised(Listing(t, d), k) == Listing(t, d - k)
    decreases t
  {
    ListingAllRaised(t.kids, d + 1, k);
    RaisedConcat([(t.node, d)], ListingAll(t.kids, d + 1), k);
    assert Raised([(t.node, d)], k) == [(t.node, d - k)];
  }

  lemma {:induction false} ListingAllRaised(ts: seq<Tree>, d: int, k: int)
    ensures Raised(ListingAll(ts, d), k) == ListingAll(ts, d - k)
    decreases ts
  {
    if ts != [] {
      ListingRaised(ts[0], d, k);
      ListingAllRaised(ts[1..], d, k);
      RaisedConcat(Listing(ts[0], d), ListingAll(ts[1..], d), k);
    }
  }

  // ----- what a longer run does not change --------------------------------

  lemma {:induction false} LevelSame(e: seq<Event>, f: seq<Event>, open: seq<nat>, name: string)
    requires e <= f && forall i :: 0 <= i < |open| ==> open[i] < |e|
    ensures Level(e, open, name) == Level(f, open, name)
    decreases |open|
  {
    if open != [] {
      LevelSame(e, f, open[..|open|-1], name);
    }
  }

  lemma ClosedSame(e: seq<Event>, f: seq<Event>, i: nat, j: nat)
    requires e <= f && j < |e|
    ensures ClosedBy(e, i, j) <==> ClosedBy(f, i, j)
    ensures Unmatched(e, j) <==> Unmatched(f, j)
  {
    hide Level;
    assert e[..j] == f[..j];
    LevelSame(e, f, OpenAt(e[..j]), e[j].node.tagName);
  }

  /** What is open at the end and was opened before i was open at i, with the
      same elements around it. */
  lemma {:induction false} OpenPrefix(e: seq<Event>, i: nat, m: nat)
    requires i <= |e| && m < |OpenAt(e)| && OpenAt(e)[m] < i
    ensures m < |OpenAt(e[..i])| && OpenAt(e[..i])[..m+1] == OpenAt(e)[..m+1]
    decreases |e|
  {
    if i == |e| {
      assert e[..i] == e;
    } else {
      var n := |e| - 1;
      assert e[..n][..i] == e[..i];
      assert OpenAt(e)[..m+1] == OpenAt(e[..n])[..m+1];
      assert OpenAt(e[..n])[m] == OpenAt(e[..n])[..m+1][m] == OpenAt(e)[m];
      OpenPrefix(e[..n], i, m);
    }
  }

  /** When an element that is open at the end began, just those around it were
      open. */
  lemma OpenSelf(e: seq<Event>, m: nat)
    requires m < |OpenAt(e)|
    ensures OpenAt(e)[m] < |e| && Opens(e[OpenAt(e)[m]]) && OpenAt(e[..OpenAt(e)[m]]) == OpenAt(e)[..m]
  {
    var i := OpenAt(e)[m];
    OpenOpens(e, m);
    OpenPrefix(e, i + 1, m);
    assert e[..i+1][..i] == e[..i] && e[..i+1][i] == e[i];
    var before := OpenAt(e[..i]);
    assert OpenAt(e[..i+1]) == before + [i];
    assert OpenAt(e[..i+1])[m] == OpenAt(e[..i+1])[..m+1][m] == i;
    assert |before| == m;
    assert OpenAt(e)[..m] == OpenAt(e[..i+1])[..m+1][..m] == before;
  }

  lemma {:induction false} OpenOpens(e: seq<Event>, m: nat)
    requires m < |OpenAt(e)|
    ensures Opens(e[OpenAt(e)[m]])
    decreases |e|
  {
    var n := |e| - 1;
    if m < |OpenAt(e[..n])| && OpenAt(e)[m] != n {
      assert OpenAt(e)[m] == OpenAt(e[..n])[m];
      OpenOpens(e[..n], m);
    }
  }

  /** What has been closed is not open any more. */
  lemma {:induction false} ClosedGone(e: seq<Event>, i: nat, j: nat, x: nat)
    requires ClosedBy(e, i, j) && j < x <= |e|
    ensures i !in OpenAt(e[..x])
    decreases x
  {
    hide Level;
    assert e[..x][..x-1] == e[..x-1] && e[..x][x-1] == e[x-1];
    if x == j + 1 {
      LevelSame(e[..x], e, OpenAt(e[..j]), e[j].node.tagName);
    } else {
      ClosedGone(e, i, j, x - 1);
    }
  }

  /** An element is closed once. */
  lemma ClosedOnce(e: seq<Event>, i: nat, j: nat, k: nat)
    requires ClosedBy(e, i, j) && ClosedBy(e, i, k)
    ensures j == k
  {
    hide Level;
    if j < k {
      ClosedGone(e, i, j, k);
    } else if k < j {
      ClosedGone(e, i, k, j);
    }
  }

  // ----- how deep ---------------------------------------------------------

  lemma {:induction false} HoldingConcat(e: seq<Event>, a: seq<nat>, b: seq<nat>)
    ensures Holding(e, a + b) == Holding(e, a) + Holding(e, b)
    decreases |b|
  {
    hide Holds;
    if b == [] {
      assert a + b == a;
    } else {
      assert (a + b)[..|a+b|-1] == a + b[..|b|-1];
      HoldingConcat(e, a, b[..|b|-1]);
    }
  }

  lemma {:induction false} HoldingSame(e: seq<Event>, f: seq<Event>, open: seq<nat>)
    requires forall o | o in open :: Holds(e, o) == Holds(f, o)
    ensures Holding(e, open) == Holding(f, open)
    decreases |open|
  {
    hide Holds;
    if open != [] {
      HoldingSame(e, f, open[..|open|-1]);
    }
  }

  /** Of some elements just the first k hold what comes behind them. */
  lemma {:induction false} HoldingFirst(e: seq<Event>, open: seq<nat>, k: nat)
    requires forall i :: 0 <= i < |open| ==> Holds(e, open[i]) == (i < k)
    ensures Holding(e, open) == if |open| < k then |open| else k
    decreases |open|
  {
    hide Holds;
    if open != [] {
      HoldingFirst(e, open[..|open|-1], k);
    }
  }

  // ----- what the events make ---------------------------------------------

  lemma {:induction false} MadeSplit(e: seq<Event>, a: nat, b: nat, c: nat)
    requires a <= b <= c <= |e|
    ensures Made(e, a, c) == Made(e, a, b) + Made(e, b, c)
    decreases c
  {
    hide Makes, NodeOf, DepthOf;
    if b < c {
      MadeSplit(e, a, b, c - 1);
      Regroup(Made(e, a, b), Made(e, b, c - 1),
              if Makes(e, c - 1) then [(NodeOf(e, c - 1), DepthOf(e, c - 1) as int)] else []);
    }
  }

  ghost predicate SameFate(e: seq<Event>, f: seq<Event>, i: nat, k: int)
    requires i < |e| && i < |f|
  {
    Makes(e, i) == Makes(f, i) && NodeOf(e, i) == NodeOf(f, i) && DepthOf(f, i) == DepthOf(e, i) - k
  }

  /** The same nodes, so much less deep. */
  lemma {:induction false} MadeRaised(e: seq<Event>, f: seq<Event>, a: nat, b: nat, k: int)
    requires a <= b <= |e| && b <= |f| && forall i :: a <= i < b ==> SameFate(e, f, i, k)
    ensures Made(f, a, b) == Raised(Made(e, a, b), k)
    decreases b
  {
    hide Makes, NodeOf, DepthOf;
    if a < b {
      MadeRaised(e, f, a, b - 1, k);
      assert SameFate(e, f, b - 1, k);
      var x: seq<(HtmlNode, int)> := if Makes(e, b - 1) then [(NodeOf(e, b - 1), DepthOf(e, b - 1))] else [];
      RaisedConcat(Made(e, a, b - 1), x, k);
    }
  }

  lemma RaisedNot(l: seq<(HtmlNode, int)>)
    ensures Raised(l, 0) == l
  {
  }

  // ----- one event more ---------------------------------------------------

  /** Where the part of the m-th open element ends: part 0 is the root's. */
  ghost function PartEnd(e: seq<Event>, m: nat): nat {
    if m < |OpenAt(e)| then OpenAt(e)[m] else |e|
  }

  /** The node of an event is the same in a longer run, unless it is closed
      there. */
  lemma NodeSame(e: seq<Event>, x: Event, i: nat)
    requires i < |e| && !ClosedBy(e + [x], i, |e|)
    ensures NodeOf(e + [x], i) == NodeOf(e, i) && Makes(e + [x], i) == Makes(e, i)
  {
    var f := e + [x];
    hide ClosedBy, Unmatched;
    ClosedSame(e, f, i, i);
    forall j: nat | j < |e|
      ensures ClosedBy(e, i, j) == ClosedBy(f, i, j)
    {
      ClosedSame(e, f, i, j);
    }
    ClosersKnown(e, i);
    ClosersKnown(f, i);
    if Closes(e[i]) {
    } else if j: nat :| ClosedBy(e, i, j) {
      assert ClosedBy(f, i, j);
    }
  }

  /** All closers of an event are the same one, and it is in the run. */
  lemma ClosersKnown(e: seq<Event>, i: nat)
    ensures forall j: nat, k: nat :: ClosedBy(e, i, j) && ClosedBy(e, i, k) ==> j == k
    ensures forall j: nat :: ClosedBy(e, i, j) ==> j < |e|
  {
    forall j: nat, k: nat | ClosedBy(e, i, j) && ClosedBy(e, i, k)
      ensures j == k
    {
      ClosedOnce(e, i, j, k);
    }
  }

  /** What holds and is not open has been closed before, and this stays so. */
  lemma HoldsSame(e: seq<Event>, x: Event, o: nat)
    requires o !in OpenAt(e) && o < |e|
    ensures Holds(e + [x], o) == Holds(e, o)
  {
    var f := e + [x];
    hide ClosedBy, Level, OpenAt;
    NotReopened(e, x, o);
    forall j: nat | j < |e|
      ensures ClosedBy(e, o, j) == ClosedBy(f, o, j)
    {
      ClosedSame(e, f, o, j);
    }
    ClosersKnown(e, o);
    ClosersKnown(f, o);
    if Holds(f, o) {
      var j: nat :| ClosedBy(f, o, j);
      assert ClosedBy(e, o, j);
    }
    if Holds(e, o) {
      var j: nat :| ClosedBy(e, o, j);
      assert ClosedBy(f, o, j);
    }
  }

  lemma NotReopened(e: seq<Event>, x: Event, o: nat)
    requires o !in OpenAt(e) && o < |e|
    ensures o !in OpenAt(e + [x]) && !ClosedBy(e + [x], o, |e|)
  {
    hide ClosedBy, Level;
    OpenNext(e, x);
    LastCloses(e, x, o);
  }

  lemma OpenNext(e: seq<Event>, x: Event)
    ensures OpenAt(e + [x]) ==
              if Opens(x) then OpenAt(e) + [|e|]
              else if Closes(x) then OpenAt(e)[..Level(e, OpenAt(e), x.node.tagName)]
              else OpenAt(e)
  {
    hide Level;
    assert (e + [x])[..|e|] == e;
    LevelSame(e, e + [x], OpenAt(e), x.node.tagName);
  }

  /** What the last event closes was open. */
  lemma LastCloses(e: seq<Event>, x: Event, o: nat)
    ensures ClosedBy(e + [x], o, |e|) <==>
              Closes(x) && var k := Level(e, OpenAt(e), x.node.tagName); k < |OpenAt(e)| && OpenAt(e)[k] == o
    ensures Unmatched(e + [x], |e|) <==> Closes(x) && Level(e, OpenAt(e), x.node.tagName) == |OpenAt(e)|
  {
    hide Level;
    assert (e + [x])[..|e|] == e;
    LevelSame(e, e + [x], OpenAt(e), x.node.tagName);
  }

  /** The elements that stay in force when k open ones are left, or the k-th is
      closed. */
  lemma OpenHolds(e: seq<Event>, x: Event, m: nat)
    requires m < |OpenAt(e)|
    ensures Holds(e, OpenAt(e)[m])
    ensures Closes(x) ==> (Holds(e + [x], OpenAt(e)[m]) <==> m <= Level(e, OpenAt(e), x.node.tagName))
    ensures !Closes(x) ==> Holds(e + [x], OpenAt(e)[m])
  {
    var o, f := OpenAt(e)[m], e + [x];
    hide ClosedBy, Level;
    OpenNext(e, x);
    LastCloses(e, x, o);
    ClosersKnown(f, o);
    assert e[..|e|] == e;
    forall j: nat | j < |e|
      ensures !ClosedBy(f, o, j)
    {
      ClosedSame(e, f, o, j);
      if ClosedBy(e, o, j) {
        ClosedGone(e, o, j, |e|);
      }
    }
    if Closes(x) {
      var k := Level(e, OpenAt(e), x.node.tagName);
      if m < k {
        assert OpenAt(f)[m] == o;
      } else if m == k {
        assert ClosedBy(f, o, |e|);
      } else {
        StrictlyUp(OpenAt(e), m, k);
      }
    } else {
      assert OpenAt(f)[m] == o;
    }
  }

  lemma StrictlyUp(s: seq<nat>, m: nat, k: nat)
    requires m < |s| && k < m && forall i, j :: 0 <= i < j < |s| ==> s[i] < s[j]
    ensures s[m] !in s[..k] && s[m] != s[k]
  {
  }

  /** How many of the first m open elements still hold theirs. */
  lemma HoldingOpen(e: seq<Event>, x: Event, m: nat)
    requires m <= |OpenAt(e)|
    ensures Holding(e, OpenAt(e)[..m]) == m
    ensures var k := Level(e, OpenAt(e), x.node.tagName);
            Holding(e + [x], OpenAt(e)[..m]) == if Closes(x) && m > k then k + 1 else m
  {
    hide Level, Holds;
    var open := OpenAt(e)[..m];
    var k := if Closes(x) then Level(e, OpenAt(e), x.node.tagName) + 1 else m;
    forall i | 0 <= i < m
      ensures Holds(e, open[i]) && (Holds(e + [x], open[i]) <==> i < k)
    {
      OpenHolds(e, x, i);
    }
    HoldingFirst(e, open, m);
    HoldingFirst(e + [x], open, k);
  }

  predicate Upwards(s: seq<nat>) {
    forall i, j :: 0 <= i < j < |s| ==> s[i] < s[j]
  }

  /** Two rising lists with the same beginning: what the first holds behind it
      is not in the second, if that goes on behind the end of the first. */
  lemma BehindBoth(all: seq<nat>, open: seq<nat>, m: nat, i: nat)
    requires Upwards(all) && Upwards(open) && m <= |all| && m <= |open| && all[..m] == open[..m]
    requires (forall o | o in all :: o < i) && (m < |open| ==> i <= open[m])
    ensures forall o | o in all[m..] :: o !in open && o < i
  {
    forall a, b | m <= a < |all| && 0 <= b < |open|
      ensures all[a] != open[b]
    {
      if b < m {
        assert open[b] == open[..m][b] == all[..m][b] == all[b];
      } else {
        assert all[a] in all && open[m] <= open[b];
      }
    }
    forall o | o in all[m..]
      ensures o !in open && o < i
    {
      var a :| 0 <= a < |all[m..]| && all[m..][a] == o;
      assert all[m+a] == o && all[m+a] in all;
    }
  }

  lemma OpenUpwards(e: seq<Event>)
    ensures Upwards(OpenAt(e)) && forall o | o in OpenAt(e) :: o < |e|
  {
  }

  /** In the part behind the first m open elements: what else was open at i. */
  lemma OpenInside(e: seq<Event>, i: nat, m: nat) returns (extra: seq<nat>)
    requires m <= |OpenAt(e)| && i <= |e| && (m > 0 ==> OpenAt(e)[m-1] < i) && i <= PartEnd(e, m)
    ensures OpenAt(e[..i]) == OpenAt(e)[..m] + extra
    ensures forall o | o in extra :: o !in OpenAt(e) && o < i
  {
    var all := OpenAt(e[..i]);
    OpenBefore(e, i, m);
    OpenUpwards(e);
    OpenUpwards(e[..i]);
    hide OpenAt, Upwards;
    BehindBoth(all, OpenAt(e), m, i);
    extra := all[m..];
  }

  lemma OpenBefore(e: seq<Event>, i: nat, m: nat)
    requires m <= |OpenAt(e)| && i <= |e| && (m > 0 ==> OpenAt(e)[m-1] < i)
    ensures m <= |OpenAt(e[..i])| && OpenAt(e[..i])[..m] == OpenAt(e)[..m]
  {
    if m > 0 {
      OpenPrefix(e, i, m - 1);
    }
  }

  /** How the depth of an event's node changes: for each element that loses what
      it holds, by one. */
  lemma DepthInside(e: seq<Event>, x: Event, i: nat, m: nat)
    requires m <= |OpenAt(e)| && i < |e| && (m > 0 ==> OpenAt(e)[m-1] < i) && i <= PartEnd(e, m)
    ensures var k := Level(e, OpenAt(e), x.node.tagName);
            DepthOf(e + [x], i) == DepthOf(e, i) - if Closes(x) && m > k + 1 then m - k - 1 else 0
  {
    hide Level, Holds;
    var f := e + [x];
    assert f[..i] == e[..i];
    var extra := OpenInside(e, i, m);
    HoldingConcat(e, OpenAt(e)[..m], extra);
    HoldingConcat(f, OpenAt(e)[..m], extra);
    HoldingOpen(e, x, m);
    forall o | o in extra
      ensures Holds(e, o) == Holds(f, o)
    {
      HoldsSame(e, x, o);
    }
    HoldingSame(e, f, extra);
  }

  /** The m-th open element itself stands right below those around it. */
  lemma DepthSelf(e: seq<Event>, m: nat)
    requires m < |OpenAt(e)|
    ensures DepthOf(e, OpenAt(e)[m]) == m + 1
  {
    OpenSelf(e, m);
    var dummy: Event := e[OpenAt(e)[m]];
    HoldingOpen(e, dummy, m);
  }

  // ----- the stack and what has been made ---------------------------------

  ghost function PartStart(e: seq<Event>, m: nat): nat
    requires m <= |OpenAt(e)|
  {
    if m == 0 then 0 else OpenAt(e)[m-1] + 1
  }

  lemma PartInOrder(e: seq<Event>, m: nat)
    requires m <= |OpenAt(e)|
    ensures PartStart(e, m) <= PartEnd(e, m) <= |e|
  {
  }

  /** Each open element holds what was made behind it. */
  ghost predicate FrameAgrees(e: seq<Event>, st: seq<Frame>, m: nat)
    requires m <= |OpenAt(e)| && m < |st|
  {
    PartInOrder(e, m);
    && st[m].node == (if m == 0 then ROOT else e[OpenAt(e)[m-1]].node)
    && Made(e, PartStart(e, m), PartEnd(e, m)) == ListingAll(st[m].kids, m + 1)
  }

  ghost predicate Agrees(e: seq<Event>, st: seq<Frame>) {
    && |st| == |OpenAt(e)| + 1
    && forall m :: 0 <= m < |st| ==> FrameAgrees(e, st, m)
  }

  lemma {:induction false} MatchLevel(e: seq<Event>, open: seq<nat>, st: seq<Frame>, name: string)
    requires |st| == |open| + 1 && (forall i :: 0 <= i < |open| ==> open[i] < |e| && st[i+1].node == e[open[i]].node)
    ensures Match(st, name) == var k := Level(e, open, name); if k < |open| then k + 1 else 0
    decreases |open|
  {
    hide EqualsIgnoreCase;
    if open != [] {
      var n := |open| - 1;
      assert st[n+1].node == e[open[n]].node;
      MatchLevel(e, open[..n], st[..n+1], name);
    }
  }

  lemma AgreedMatch(e: seq<Event>, st: seq<Frame>, name: string)
    requires Agrees(e, st)
    ensures Match(st, name) == var k := Level(e, OpenAt(e), name); if k < |OpenAt(e)| then k + 1 else 0
  {
    hide OpenAt, Level, Match, Made;
    forall i | 0 <= i < |OpenAt(e)|
      ensures st[i+1].node == e[OpenAt(e)[i]].node
    {
      assert FrameAgrees(e, st, i + 1);
    }
    MatchLevel(e, OpenAt(e), st, name);
  }

  /** What an open element holds, in a run that is longer by one event. */
  lemma PartRaised(e: seq<Event>, x: Event, m: nat)
    requires m <= |OpenAt(e)|
    ensures PartStart(e, m) <= PartEnd(e, m) <= |e|
    ensures var k := Level(e, OpenAt(e), x.node.tagName);
            var d := if Closes(x) && m > k + 1 then m - k - 1 else 0;
            Made(e + [x], PartStart(e, m), PartEnd(e, m)) == Raised(Made(e, PartStart(e, m), PartEnd(e, m)), d)
  {
    hide Level, Made, DepthOf, NodeOf, Makes, ClosedBy;
    PartInOrder(e, m);
    var k := Level(e, OpenAt(e), x.node.tagName);
    var d := if Closes(x) && m > k + 1 then m - k - 1 else 0;
    forall i | PartStart(e, m) <= i < PartEnd(e, m)
      ensures SameFate(e, e + [x], i, d)
    {
      InsideNotOpen(e, m, i);
      NotReopened(e, x, i);
      NodeSame(e, x, i);
      DepthInside(e, x, i, m);
    }
    MadeRaised(e, e + [x], PartStart(e, m), PartEnd(e, m), d);
  }

  lemma InsideNotOpen(e: seq<Event>, m: nat, i: nat)
    requires m <= |OpenAt(e)| && PartStart(e, m) <= i < PartEnd(e, m)
    ensures i !in OpenAt(e)
  {
    OpenUpwards(e);
    NotAmong(OpenAt(e), m, i);
  }

  /** What lies between two neighbours of a rising list is not in it. */
  lemma NotAmong(s: seq<nat>, m: nat, i: nat)
    requires Upwards(s) && m <= |s| && (m > 0 ==> s[m-1] < i) && (m < |s| ==> i < s[m])
    ensures i !in s
  {
    forall b | 0 <= b < |s|
      ensures s[b] != i
    {
      assert b < m - 1 ==> s[b] < s[m-1];
      assert b > m ==> s[m] < s[b];
    }
  }

  /** An open element is one node, below those around it. */
  lemma OpenMade(e: seq<Event>, x: Event, m: nat)
    requires m < |OpenAt(e)|
    ensures var k, o := Level(e, OpenAt(e), x.node.tagName), OpenAt(e)[m];
            && o < |e|
            && Made(e + [x], o, o + 1) ==
                 [(if Closes(x) && m == k then Closed(e[o].node, x.node) else e[o].node,
                   if Closes(x) && m > k then k + 2 else m + 1)]
  {
    hide Level, DepthOf, NodeOf, OpenAt, Makes;
    var o, f := OpenAt(e)[m], e + [x];
    OpenSelf(e, m);
    DepthSelf(e, m);
    OpenInRange(e, m + 1);
    PartInOrder(e, m);
    OpenWithin(e, m);
    DepthInside(e, x, o, m);
    OpenNode(e, x, m);
    OneMade(f, o);
  }

  lemma OpenWithin(e: seq<Event>, m: nat)
    requires m < |OpenAt(e)|
    ensures OpenAt(e)[m] <= PartEnd(e, m) && (m > 0 ==> OpenAt(e)[m-1] < OpenAt(e)[m])
  {
  }

  lemma OneMade(e: seq<Event>, i: nat)
    requires i < |e| && Opens(e[i])
    ensures Made(e, i, i + 1) == [(NodeOf(e, i), DepthOf(e, i))]
  {
    hide NodeOf, DepthOf;
    assert Made(e, i, i) == [];
  }

  /** The node of an open element, behind one more event. */
  lemma OpenNode(e: seq<Event>, x: Event, m: nat)
    requires m < |OpenAt(e)|
    ensures OpenAt(e)[m] < |e|
    ensures var k, o := Level(e, OpenAt(e), x.node.tagName), OpenAt(e)[m];
            NodeOf(e + [x], o) == if Closes(x) && m == k then Closed(e[o].node, x.node) else e[o].node
  {
    hide Level, DepthOf, OpenAt;
    var k, o, f := Level(e, OpenAt(e), x.node.tagName), OpenAt(e)[m], e + [x];
    OpenSelf(e, m);
    LastCloses(e, x, o);
    OpenHasNoCloser(e, m);
    if Closes(x) && m == k {
      ClosersKnown(f, o);
      assert ClosedBy(f, o, |e|) && f[|e|] == x && f[o] == e[o];
      hide ClosedBy;
      assert NodeOf(f, o) == Closed(e[o].node, x.node);
    } else {
      if Closes(x) && k < |OpenAt(e)| {
        OpenUpwards(e);
        StrictlyApart(OpenAt(e), m, k);
      }
      NodeSame(e, x, o);
    }
  }

  lemma StrictlyApart(s: seq<nat>, m: nat, k: nat)
    requires m < |s| && k < |s| && m != k && Upwards(s)
    ensures s[m] != s[k]
  {
  }

  lemma OpenHasNoCloser(e: seq<Event>, m: nat)
    requires m < |OpenAt(e)|
    ensures NodeOf(e, OpenAt(e)[m]) == e[OpenAt(e)[m]].node
  {
    hide ClosedBy, Level;
    var o := OpenAt(e)[m];
    OpenOpens(e, m);
    assert e[..|e|] == e;
    if j: nat :| ClosedBy(e, o, j) {
      ClosersKnown(e, o);
      ClosedGone(e, o, j, |e|);
    }
  }

  // ----- the steps --------------------------------------------------------

  lemma PartSame(e: seq<Event>, x: Event, st: seq<Frame>, m: nat)
    requires Agrees(e, st) && m < |st| && (Closes(x) ==> m <= Level(e, OpenAt(e), x.node.tagName) + 1)
    ensures PartStart(e, m) <= PartEnd(e, m) <= |e|
    ensures Made(e + [x], PartStart(e, m), PartEnd(e, m)) == ListingAll(st[m].kids, m + 1)
  {
    hide Level, Made, OpenAt;
    PartRaised(e, x, m);
    assert FrameAgrees(e, st, m);
    RaisedNot(ListingAll(st[m].kids, m + 1));
  }

  /** A node without an element of its own to open or close: a leaf. */
  lemma LeafAgrees(e: seq<Event>, x: Event, st: seq<Frame>, n: HtmlNode)
    requires Agrees(e, st) && !Opens(x) && (Closes(x) ==> Level(e, OpenAt(e), x.node.tagName) == |OpenAt(e)|)
    requires n == if Closes(x) then x.node.(isTag := false, isComment := true) else x.node
    ensures Agrees(e + [x], AppendLeaf(st, Leaf(n)))
  {
    hide Level, OpenAt, Made, ClosedBy;
    var f, open, top := e + [x], OpenAt(e), |OpenAt(e)|;
    var r := AppendLeaf(st, Leaf(n));
    OpenNext(e, x);
    LeafMade(e, x, n);
    forall m | 0 <= m < |r|
      ensures FrameAgrees(f, r, m)
    {
      assert FrameAgrees(e, st, m);
      PartSame(e, x, st, m);
      OpenInRange(e, m);
      if m == top {
        LeafLast(f, PartStart(e, m), st[m].kids, n, m + 1);
      }
    }
  }

  lemma LeafLast(f: seq<Event>, a: nat, kids: seq<Tree>, n: HtmlNode, d: int)
    requires f != [] && a < |f| && Made(f, a, |f| - 1) == ListingAll(kids, d) && Made(f, |f| - 1, |f|) == [(n, d)]
    ensures Made(f, a, |f|) == ListingAll(kids + [Leaf(n)], d)
  {
    hide Made;
    MadeSplit(f, a, |f| - 1, |f|);
    ListingConcat(kids, [Leaf(n)], d);
    LeafListed(n, d);
  }

  lemma OpenInRange(e: seq<Event>, m: nat)
    requires m <= |OpenAt(e)|
    ensures m > 0 ==> OpenAt(e)[m-1] < |e|
  {
  }

  lemma LeafListed(n: HtmlNode, d: int)
    ensures ListingAll([Leaf(n)], d) == [(n, d)]
  {
    ListingOne(Leaf(n), d);
    assert ListingAll([], d + 1) == [];
  }

  lemma LeafMade(e: seq<Event>, x: Event, n: HtmlNode)
    requires !Opens(x) && (Closes(x) ==> Level(e, OpenAt(e), x.node.tagName) == |OpenAt(e)|)
    requires n == if Closes(x) then x.node.(isTag := false, isComment := true) else x.node
    ensures Made(e + [x], |e|, |e| + 1) == [(n, |OpenAt(e)| + 1)]
  {
    hide Level, OpenAt, Holding;
    LastMade(e, x);
    LastCloses(e, x, 0);
    NoneBehind(e, x);
  }

  /** The depth of the last event's node, and what closes it. */
  lemma LastMade(e: seq<Event>, x: Event)
    ensures DepthOf(e + [x], |e|) == Holding(e + [x], OpenAt(e)) + 1
    ensures Closes(x) && Level(e, OpenAt(e), x.node.tagName) == |OpenAt(e)| ==>
              DepthOf(e + [x], |e|) == |OpenAt(e)| + 1
    ensures !Closes(x) ==> DepthOf(e + [x], |e|) == |OpenAt(e)| + 1
    ensures Made(e + [x], |e|, |e|) == []
  {
    hide Level, Holding, OpenAt;
    assert (e + [x])[..|e|] == e;
    HoldingOpen(e, x, |OpenAt(e)|);
    assert OpenAt(e)[..|OpenAt(e)|] == OpenAt(e);
  }

  /** Nothing closes the last event. */
  lemma NoneBehind(e: seq<Event>, x: Event)
    ensures forall j: nat :: !ClosedBy(e + [x], |e|, j)
  {
    forall j: nat
      ensures !ClosedBy(e + [x], |e|, j)
    {
      if j <= |e| {
        OpenUpwards((e + [x])[..j]);
      }
    }
  }

  lemma OpenAgrees(e: seq<Event>, x: Event, st: seq<Frame>)
    requires Agrees(e, st) && Opens(x)
    ensures Agrees(e + [x], st + [Frame(x.node, [])])
  {
    hide Level, OpenAt;
    var f, r := e + [x], st + [Frame(x.node, [])];
    OpenNext(e, x);
    forall m | 0 <= m < |r|
      ensures FrameAgrees(f, r, m)
    {
      if m < |st| {
        assert FrameAgrees(e, st, m);
        PartSame(e, x, st, m);
        OpenInRange(e, m);
      }
    }
  }

  /** What the elements above the closed one lose to it. */
  lemma {:induction false} FlatMade(e: seq<Event>, x: Event, st: seq<Frame>, m: nat)
    requires Agrees(e, st) && Closes(x) && Level(e, OpenAt(e), x.node.tagName) < m <= |OpenAt(e)|
    ensures PartEnd(e, m) <= |e|
    ensures Made(e + [x], PartEnd(e, m), |e|)
         == ListingAll(Flat(st[m+1..]), Level(e, OpenAt(e), x.node.tagName) + 2)
    decreases |OpenAt(e)| - m
  {
    hide Level, OpenAt, Made, Raised;
    var k, f := Level(e, OpenAt(e), x.node.tagName), e + [x];
    PartInOrder(e, m);
    if m == |OpenAt(e)| {
      NothingMade(f, |e|);
    } else {
      var o, fr := OpenAt(e)[m], st[m+1];
      PartInOrder(e, m + 1);
      assert FrameAgrees(e, st, m + 1);
      FlatMade(e, x, st, m + 1);
      OpenMade(e, x, m);
      PartRaised(e, x, m + 1);
      ListingAllRaised(fr.kids, m + 2, m - k);
      MadeSplit(f, o, o + 1, |e|);
      MadeSplit(f, o + 1, PartEnd(e, m + 1), |e|);
      FlatListed(st[m+1..], k + 2);
      assert st[m+1..][1..] == st[m+2..];
      Regroup([(fr.node, (k + 2) as int)], ListingAll(fr.kids, k + 2), ListingAll(Flat(st[m+2..]), k + 2));
    }
  }

  lemma FlatListed(frames: seq<Frame>, d: int)
    requires frames != []
    ensures ListingAll(Flat(frames), d) ==
              [(frames[0].node, d)] + ListingAll(frames[0].kids, d) + ListingAll(Flat(frames[1..]), d)
  {
    LeafListed(frames[0].node, d);
    ListingConcat([Leaf(frames[0].node)], frames[0].kids, d);
    ListingConcat([Leaf(frames[0].node)] + frames[0].kids, Flat(frames[1..]), d);
  }

  lemma NothingMade(e: seq<Event>, a: nat)
    requires a <= |e|
    ensures Made(e, a, a) == []
  {
  }

  /** The closed element with all that it takes over. */
  lemma ClosedMade(e: seq<Event>, x: Event, st: seq<Frame>)
    requires Agrees(e, st) && Closes(x) && Level(e, OpenAt(e), x.node.tagName) < |OpenAt(e)|
    ensures var k := Level(e, OpenAt(e), x.node.tagName);
            var t := Tree(Closed(st[k+1].node, x.node), st[k+1].kids + Flat(st[k+2..]));
            OpenAt(e)[k] <= |e| && Made(e + [x], OpenAt(e)[k], |e| + 1) == Listing(t, k + 1)
  {
    hide Level, OpenAt, Made, ClosedBy;
    var k, f := Level(e, OpenAt(e), x.node.tagName), e + [x];
    var o, fr := OpenAt(e)[k], st[k+1];
    assert FrameAgrees(e, st, k + 1);
    OpenMade(e, x, k);
    PartInOrder(e, k + 1);
    PartSame(e, x, st, k + 1);
    FlatMade(e, x, st, k + 1);
    NotMade(e, x);
    MadeSplit(f, o, o + 1, |e|);
    MadeSplit(f, o + 1, PartEnd(e, k + 1), |e|);
    MadeSplit(f, o, |e|, |f|);
    ListingConcat(fr.kids, Flat(st[k+2..]), k + 2);
    assert Made(f, o, |f|) == Made(f, o, |e|) + [];
  }

  lemma NotMade(e: seq<Event>, x: Event)
    requires Closes(x) && Level(e, OpenAt(e), x.node.tagName) < |OpenAt(e)|
    ensures Made(e + [x], |e|, |e| + 1) == []
  {
    hide Level, OpenAt;
    LastCloses(e, x, 0);
    NothingMade(e + [x], |e|);
  }

  lemma CloseAgrees(e: seq<Event>, x: Event, st: seq<Frame>)
    requires Agrees(e, st) && Closes(x) && Level(e, OpenAt(e), x.node.tagName) < |OpenAt(e)|
    ensures Agrees(e + [x], CloseAt(st, Level(e, OpenAt(e), x.node.tagName) + 1, x.node))
  {
    hide Level, OpenAt, Made, Flat, Listing;
    var k, f := Level(e, OpenAt(e), x.node.tagName), e + [x];
    var t := Tree(Closed(st[k+1].node, x.node), st[k+1].kids + Flat(st[k+2..]));
    var r := CloseAt(st, k + 1, x.node);
    OpenNext(e, x);
    ClosedMade(e, x, st);
    forall m | 0 <= m < |r|
      ensures FrameAgrees(f, r, m)
    {
      assert FrameAgrees(e, st, m);
      PartSame(e, x, st, m);
      OpenInRange(e, m);
      if m == k {
        MadeSplit(f, PartStart(e, k), OpenAt(e)[k], |f|);
        ListingConcat(st[k].kids, [t], k + 1);
        ListingOne(t, k + 1);
      }
    }
  }

  lemma StepAgrees(e: seq<Event>, x: Event, st: seq<Frame>)
    requires Agrees(e, st)
    ensures Agrees(e + [x], Step(st, x))
  {
    hide Agrees, Level, OpenAt, Match, AppendLeaf, CloseAt;
    AgreedMatch(e, st, x.node.tagName);
    if Opens(x) {
      OpenAgrees(e, x, st);
    } else if Closes(x) && Level(e, OpenAt(e), x.node.tagName) < |OpenAt(e)| {
      CloseAgrees(e, x, st);
    } else {
      LeafAgrees(e, x, st, if Closes(x) then x.node.(isTag := false, isComment := true) else x.node);
    }
  }

  lemma {:induction false} RunAgrees(e: seq<Event>)
    ensures Agrees(e, Run(EMPTY_STACK, e))
    decreases |e|
  {
    if e == [] {
      StartAgrees();
    } else {
      hide Agrees, Step;
      var n := |e| - 1;
      RunAgrees(e[..n]);
      StepAgrees(e[..n], e[n], Run(EMPTY_STACK, e[..n]));
      assert e[..n] + [e[n]] == e;
    }
  }

  lemma StartAgrees()
    ensures Agrees([], EMPTY_STACK)
  {
    var none: seq<Event> := [];
    assert OpenAt(none) == [] && Made(none, 0, 0) == [];
    forall m | 0 <= m < |EMPTY_STACK|
      ensures FrameAgrees(none, EMPTY_STACK, m)
    {
      assert m == 0 && ListingAll(EMPTY_STACK[0].kids, 1) == [];
    }
  }

  // ----- the finished tree ------------------------------------------------

  /** The open elements from the m-th on, as the tree that they stand for. */
  lemma {:induction false} ZipListed(e: seq<Event>, st: seq<Frame>, m: nat)
    requires |st| == |OpenAt(e)| + 1 && m < |st| && forall i :: m <= i < |st| ==> FrameAgrees(e, st, i)
    ensures PartStart(e, m) <= |e|
    ensures Listing(Zip(st[m..]), m) == [(st[m].node, m as int)] + Made(e, PartStart(e, m), |e|)
    decreases |st| - m
  {
    hide OpenAt, Made;
    PartInOrder(e, m);
    assert FrameAgrees(e, st, m);
    var fr := st[m];
    if m + 1 == |st| {
      assert st[m..] == [fr];
    } else {
      var o := OpenAt(e)[m];
      PartInOrder(e, m + 1);
      ZipListed(e, st, m + 1);
      assert st[m..][1..] == st[m+1..];
      OpenAlone(e, m);
      assert FrameAgrees(e, st, m + 1);
      MadeSplit(e, PartStart(e, m), o, |e|);
      MadeSplit(e, o, o + 1, |e|);
      ListingConcat(fr.kids, [Zip(st[m+1..])], m + 1);
      ListingOne(Zip(st[m+1..]), m + 1);
    }
  }

  lemma OpenAlone(e: seq<Event>, m: nat)
    requires m < |OpenAt(e)|
    ensures OpenAt(e)[m] < |e| && Made(e, OpenAt(e)[m], OpenAt(e)[m] + 1) == [(e[OpenAt(e)[m]].node, m + 1)]
  {
    hide OpenAt, DepthOf;
    OpenSelf(e, m);
    DepthSelf(e, m);
    OpenHasNoCloser(e, m);
    NothingMade(e, OpenAt(e)[m]);
  }

  /** The tree of every input: the root, which spans the input, and the nodes
      that the events make, in their order, each at its depth. */
  lemma TreeOfEvents(s: string)
    ensures var e := Tokens(s, 0, None);
            Listing(ParseTree(s), 0) == [(ROOT.(length := |s|), 0)] + Made(e, 0, |e|)
  {
    hide Run, Made, Tokens, Agrees;
    var e := Tokens(s, 0, None);
    var st, fin := Run(EMPTY_STACK, e), ParseStack(s);
    RunAgrees(e);
    AgreedFrames(e, st);
    ZipListed(e, st, 0);
    assert st[0..] == st && fin[1..] == st[1..] && fin[0].kids == st[0].kids;
    assert Zip(fin).kids == Zip(st).kids && Zip(fin).node == ROOT.(length := |s|);
    var all := Listing(Zip(st), 0);
    assert all[1..] == ListingAll(Zip(st).kids, 1) && all[1..] == Made(e, 0, |e|);
  }

  lemma AgreedFrames(e: seq<Event>, st: seq<Frame>)
    requires Agrees(e, st)
    ensures |st| == |OpenAt(e)| + 1 && st[0].node == ROOT
    ensures forall i :: 0 <= i < |st| ==> FrameAgrees(e, st, i)
  {
    assert FrameAgrees(e, st, 0);
  }

  // ----- what becomes of the tags -----------------------------------------

  lemma {:induction false} MadeAt(e: seq<Event>, a: nat, b: nat, k: nat) returns (i: nat)
    requires a <= b <= |e| && k < |Made(e, a, b)|
    ensures a <= i < b && Makes(e, i) && Made(e, a, b)[k] == (NodeOf(e, i), DepthOf(e, i))
    decreases b
  {
    hide Makes, NodeOf, DepthOf;
    if k < |Made(e, a, b - 1)| {
      i := MadeAt(e, a, b - 1, k);
    } else {
      i := b - 1;
    }
  }

  lemma {:induction false} MadeIn(e: seq<Event>, a: nat, b: nat, i: nat)
    requires a <= i < b <= |e| && Makes(e, i)
    ensures (NodeOf(e, i), DepthOf(e, i)) in Made(e, a, b)
    decreases b
  {
    hide Makes, NodeOf, DepthOf;
    if i < b - 1 {
      MadeIn(e, a, b - 1, i);
    }
  }

  /** Every tag in the tree but the root comes from an opening tag of the input:
      it has its text, its name and its place. */
  lemma TagsFromOpenings(s: string, k: nat) returns (i: nat)
    requires 0 < k < |Listing(ParseTree(s), 0)| && Listing(ParseTree(s), 0)[k].0.isTag
    ensures var e, n := Tokens(s, 0, None), Listing(ParseTree(s), 0)[k].0;
            && i < |e| && Opens(e[i])
            && n.text == e[i].node.text && n.tagName == e[i].node.tagName && n.offset == e[i].node.offset
            && !n.isComment
  {
    hide ParseTree, Tokens, Made, OpenAt, ClosedBy, DepthOf;
    var e := Tokens(s, 0, None);
    TreeOfEvents(s);
    TokensWellShaped(s, 0, None);
    i := MadeAt(e, 0, |e|, k - 1);
    assert WellShaped(e[i]);
  }

  /** Every closing tag is kept: as the closing text of just one element, which
      ends with it, or as a comment with its text in its place. */
  lemma ClosingTagKept(s: string, j: nat)
    requires j < |Tokens(s, 0, None)| && Closes(Tokens(s, 0, None)[j])
    ensures var e := Tokens(s, 0, None);
            var c := e[j].node;
            if Unmatched(e, j) then
              exists d: int :: (c.(isTag := false, isComment := true), d) in Listing(ParseTree(s), 0)
            else
              exists i: nat ::
                && ClosedBy(e, i, j) && (forall o: nat :: ClosedBy(e, o, j) ==> o == i)
                && i < j && Opens(e[i]) && EqualsIgnoreCase(e[i].node.tagName, c.tagName)
                && exists d: int :: (ClosedNode(e[i].node, c), d) in Listing(ParseTree(s), 0)
  {
    hide ParseTree, Tokens, Made, DepthOf, EqualsIgnoreCase;
    var e := Tokens(s, 0, None);
    TreeOfEvents(s);
    if Unmatched(e, j) {
      MadeIn(e, 0, |e|, j);
    } else {
      var i := ClosedIs(e, j);
      MadeIn(e, 0, |e|, i);
      assert NodeOf(e, i) == ClosedNode(e[i].node, e[j].node);
    }
  }

  lemma ClosedIs(e: seq<Event>, j: nat) returns (i: nat)
    requires j < |e| && Closes(e[j]) && !Unmatched(e, j)
    ensures ClosedBy(e, i, j) && i < j && Opens(e[i]) && Makes(e, i)
    ensures forall o: nat :: ClosedBy(e, o, j) ==> o == i
    ensures EqualsIgnoreCase(e[i].node.tagName, e[j].node.tagName)
    ensures NodeOf(e, i) == ClosedNode(e[i].node, e[j].node)
  {
    hide Level, EqualsIgnoreCase;
    var open := OpenAt(e[..j]);
    var k := Level(e, open, e[j].node.tagName);
    i := open[k];
    OpenOpens(e[..j], k);
    assert ClosedBy(e, i, j);
    ClosersKnown(e, i);
  }

  function ClosedNode(n: HtmlNode, c: HtmlNode): HtmlNode {
    n.(length := c.offset + c.length - n.offset, closingText := c.text)
  }

  // ----- only elements have children --------------------------------------

  ghost predicate Childless(t: Tree)
    decreases t
  {
    (t.node.isTag || t.kids == []) && ChildlessAll(t.kids)
  }

  ghost predicate ChildlessAll(ts: seq<Tree>)
    decreases ts
  {
    forall i :: 0 <= i < |ts| ==> Childless(ts[i])
  }

  ghost predicate ChildlessStack(st: seq<Frame>) {
    forall i :: 0 <= i < |st| ==> st[i].node.isTag && ChildlessAll(st[i].kids)
  }

  lemma {:induction false} FlatChildless(frames: seq<Frame>)
    requires ChildlessStack(frames)
    ensures ChildlessAll(Flat(frames))
    decreases |frames|
  {
    hide Childless;
    if frames != [] {
      FlatChildless(frames[1..]);
      LeafChildless(frames[0].node);
    }
  }

  lemma LeafChildless(n: HtmlNode)
    ensures Childless(Leaf(n))
  {
  }

  lemma StepChildless(st: seq<Frame>, e: Event)
    requires |st| > 0 && ChildlessStack(st) && (Opens(e) ==> e.node.isTag)
    ensures ChildlessStack(Step(st, e))
  {
    hide Match, Flat, Childless;
    LeafChildless(e.node);
    LeafChildless(e.node.(isTag := false, isComment := true));
    if Closes(e) {
      var k := Match(st, e.node.tagName);
      if k > 0 {
        FlatChildless(st[k+1..]);
        ClosedChildless(st[k].node, e.node, st[k].kids + Flat(st[k+1..]));
      }
    }
  }

  lemma ClosedChildless(n: HtmlNode, c: HtmlNode, kids: seq<Tree>)
    requires n.isTag && ChildlessAll(kids)
    ensures Childless(Tree(Closed(n, c), kids))
  {
  }

  lemma {:induction false} RunChildless(events: seq<Event>)
    requires AllWellShaped(events)
    ensures ChildlessStack(Run(EMPTY_STACK, events))
    decreases |events|
  {
    hide Step, ChildlessStack;
    if events == [] {
      RootChildless();
    } else {
      var n := |events| - 1;
      RunChildless(events[..n]);
      assert WellShaped(events[n]);
      StepChildless(Run(EMPTY_STACK, events[..n]), events[n]);
    }
  }

  lemma RootChildless()
    ensures ChildlessStack(EMPTY_STACK)
  {
  }

  lemma {:induction false} ZipChildless(st: seq<Frame>)
    requires |st| > 0 && ChildlessStack(st)
    ensures Childless(Zip(st))
    decreases |st|
  {
    if |st| > 1 {
      ZipChildless(st[1..]);
    }
  }

  /** Texts and comments, unmatched closing tags among them, have no children. */
  lemma OnlyTagsHaveChildren(s: string)
    ensures Childless(ParseTree(s))
  {
    hide Tokens, Run, Childless, Zip;
    TokensWellShaped(s, 0, None);
    RunChildless(Tokens(s, 0, None));
    assert ChildlessStack(ParseStack(s)) by {
      FinishChildless(Run(EMPTY_STACK, Tokens(s, 0, None)), |s|);
    }
    ZipChildless(ParseStack(s));
  }

  lemma FinishChildless(st: seq<Frame>, n: nat)
    requires |st| > 0 && ChildlessStack(st)
    ensures ChildlessStack(Finish(st, n))
  {
    hide Childless;
  }
}
