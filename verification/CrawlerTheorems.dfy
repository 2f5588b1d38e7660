/** What every run of the spider workers keeps. */
module CrawlerTheorems {
  import opened Options
  import opened Crawlers

  // ----- locks ------------------------------------------------------------

  /** A worker at pc holds l. */
  predicate Holds(pc: Pc, l: Lock) {
    match pc
    case TestQueue => l == QueueLock
    case TakeEntry => l == QueueLock
    case LeaveQueue => l == QueueLock
    case NextLink => l == QueueLock
    case PushLink => l == QueueLock
    case LeaveParse => l == QueueLock
    case WantList(_, InParse) => l == QueueLock
    case InList(k, InParse) => l == QueueLock || l == ListLock(k)
    case InList(k, InRun) => l == ListLock(k)
    case InSave(k) => l == ListLock(k)
    case InNumber => l == NumberLock
    case InFetch => l == FetchLock
    case _ => false
  }

  /** The locks are with those whose place in the code says so. */
  ghost predicate Owned(s: State) {
    && (forall l {:trigger s.owner[l]} :: l in s.owner ==> s.owner[l] < |s.workers|)
    && (forall w, l {:trigger Holds(s.workers[w].pc, l)} :: 0 <= w < |s.workers| ==>
          (Holds(s.workers[w].pc, l) <==> l in s.owner && s.owner[l] == w))
  }

  /** A lock is never in two hands. */
  lemma MutualExclusion(s: State, v: nat, w: nat, l: Lock)
    requires Owned(s) && v < |s.workers| && w < |s.workers|
    requires Holds(s.workers[v].pc, l) && Holds(s.workers[w].pc, l)
    ensures v == w
  {
  }

  /** Nobody but w comes to hold other locks. */
  ghost predicate OthersStay(s: State, t: State, w: nat) {
    && |t.workers| == |s.workers| && w < |s.workers|
    && (forall x, l {:trigger Holds(t.workers[x].pc, l)} :: 0 <= x < |s.workers| && x != w ==>
          (Holds(t.workers[x].pc, l) <==> Holds(s.workers[x].pc, l)))
  }

  /** What a step of w does to the locks: it takes one, gives one back, or
      neither. */
  datatype Move = Take(l: Lock) | Give(l: Lock) | Keep

  ghost predicate Moves(s: State, t: State, w: nat, m: Move)
    requires OthersStay(s, t, w)
  {
    var from, to := s.workers[w].pc, t.workers[w].pc;
    match m
    case Take(l) =>
      && l !in s.owner && t.owner == s.owner[l := w]
      && forall k {:trigger Holds(to, k)} :: Holds(to, k) <==> Holds(from, k) || k == l
    case Give(l) =>
      && Holds(from, l) && t.owner == s.owner - {l}
      && forall k {:trigger Holds(to, k)} :: Holds(to, k) <==> Holds(from, k) && k != l
    case Keep => t.owner == s.owner && forall k {:trigger Holds(to, k)} :: Holds(to, k) <==> Holds(from, k)
  }

  lemma MoveKeeps(s: State, t: State, w: nat, m: Move)
    requires Owned(s) && OthersStay(s, t, w) && Moves(s, t, w, m)
    ensures Owned(t)
  {
  }

  /** What Act does to the locks. */
  function MoveOf(s: State, pc: Pc): Move {
    if Wanted(pc).Some? then Take(Wanted(pc).value)
    else
      match pc
      case TestQueue => if s.queue == [] then Give(QueueLock) else Keep
      case LeaveQueue => Give(QueueLock)
      case LeaveParse => Give(QueueLock)
      case InList(l, _) => Give(ListLock(l))
      case InSave(l) => Give(ListLock(l))
      case InNumber => Give(NumberLock)
      case InFetch => Give(FetchLock)
      case _ => Keep
  }

  lemma ActOthers(s: State, w: nat, c: Choice)
    requires w < |s.workers| && Act(s, w, c).Some?
    ensures OthersStay(s, Act(s, w, c).value, w)
  {
  }

  lemma ActMoves(s: State, w: nat, c: Choice)
    requires w < |s.workers| && Act(s, w, c).Some? && OthersStay(s, Act(s, w, c).value, w)
    ensures Moves(s, Act(s, w, c).value, w, MoveOf(s, s.workers[w].pc))
  {
    hide OthersStay, Act, Moves, MoveOf;
    ActOwner(s, w, c);
    var from, to, m := s.workers[w].pc, Act(s, w, c).value.workers[w].pc, MoveOf(s, s.workers[w].pc);
    forall k
      ensures HoldsBy(from, to, m, k)
    {
      ActHolds(s, w, c, k);
    }
    MovesIs(s, Act(s, w, c).value, w, m);
  }

  lemma MovesIs(s: State, t: State, w: nat, m: Move)
    requires OthersStay(s, t, w)
    requires match m case Take(l) => l !in s.owner && t.owner == s.owner[l := w]
                     case Give(l) => Holds(s.workers[w].pc, l) && t.owner == s.owner - {l}
                     case Keep => t.owner == s.owner
    requires forall k {:trigger HoldsBy(s.workers[w].pc, t.workers[w].pc, m, k)} ::
             HoldsBy(s.workers[w].pc, t.workers[w].pc, m, k)
    ensures Moves(s, t, w, m)
  {
    hide Holds;
    var from, to := s.workers[w].pc, t.workers[w].pc;
    forall k {:trigger Holds(to, k)}
      ensures Holds(to, k) <==> match m case Take(l) => Holds(from, k) || k == l
                                        case Give(l) => Holds(from, k) && k != l
                                        case Keep => Holds(from, k)
    {
      assert HoldsBy(from, to, m, k);
    }
  }

  lemma ActOwner(s: State, w: nat, c: Choice)
    requires w < |s.workers| && Act(s, w, c).Some?
    ensures |Act(s, w, c).value.workers| == |s.workers|
    ensures var t, m := Act(s, w, c).value, MoveOf(s, s.workers[w].pc);
            match m case Take(l) => l !in s.owner && t.owner == s.owner[l := w]
                    case Give(l) => Holds(s.workers[w].pc, l) && t.owner == s.owner - {l}
                    case Keep => t.owner == s.owner
  {
  }

  /** The locks of a worker that goes from one place to the next. */
  ghost predicate HoldsBy(from: Pc, to: Pc, m: Move, k: Lock) {
    Holds(to, k) <==> match m case Take(l) => Holds(from, k) || k == l
                              case Give(l) => Holds(from, k) && k != l
                              case Keep => Holds(from, k)
  }

  lemma ActHolds(s: State, w: nat, c: Choice, k: Lock)
    requires w < |s.workers| && Act(s, w, c).Some?
    ensures |Act(s, w, c).value.workers| == |s.workers|
    ensures HoldsBy(s.workers[w].pc, Act(s, w, c).value.workers[w].pc, MoveOf(s, s.workers[w].pc), k)
  {
    hide Holds, HoldsBy;
    var from, to := s.workers[w].pc, Act(s, w, c).value.workers[w].pc;
    if Wanted(from).Some? {
      EnterHolds(from, k);
    } else {
      match from
      case TestQueue => TestHolds(k);
      case InList(l, site) => ListHolds(l, site, c, k);
      case InSave(l) => SaveHolds(l, to, k);
      case InFetch => FetchHolds(to, k);
      case NextLink => LinkHolds(k);
      case _ => RestHolds(from, to, k);
    }
  }

  lemma EnterHolds(from: Pc, k: Lock)
    requires Wanted(from).Some?
    ensures HoldsBy(from, Entered(from), Take(Wanted(from).value), k)
  {
  }

  lemma TestHolds(k: Lock)
    ensures HoldsBy(TestQueue, Pc.Asleep, Give(QueueLock), k) && HoldsBy(TestQueue, TakeEntry, Keep, k)
  {
  }

  lemma ListHolds(l: List, site: Site, c: Choice, k: Lock)
    ensures HoldsBy(InList(l, site), if !c.found then AfterList(l, site) else if site == InRun then Top else NextLink,
                    Give(ListLock(l)), k)
  {
  }

  lemma SaveHolds(l: List, to: Pc, k: Lock)
    requires to == Top || to == WantParse
    ensures HoldsBy(InSave(l), to, Give(ListLock(l)), k)
  {
  }

  lemma FetchHolds(to: Pc, k: Lock)
    requires to == Top || to.WantSave?
    ensures HoldsBy(InFetch, to, Give(FetchLock), k)
  {
  }

  lemma LinkHolds(k: Lock)
    ensures HoldsBy(NextLink, LeaveParse, Keep, k) && HoldsBy(NextLink, WantList(Unreached, InParse), Keep, k)
  {
  }

  lemma RestHolds(from: Pc, to: Pc, k: Lock)
    requires match from
             case Top => to == WantQueue
             case TakeEntry => to == LeaveQueue
             case LeaveQueue => to == WantList(Unreached, InRun)
             case InNumber => to == WantFetch
             case PushLink => to == NextLink
             case LeaveParse => to == Broadcast
             case Broadcast => to == Top
             case _ => false
    ensures HoldsBy(from, to, match from case LeaveQueue => Give(QueueLock) case LeaveParse => Give(QueueLock)
                                         case InNumber => Give(NumberLock) case _ => Keep, k)
  {
  }

  lemma LocksKept(s: State, a: Action)
    requires Owned(s) && Perform(s, a).Some?
    ensures Owned(Perform(s, a).value)
  {
    hide Owned, Moves, Act, OthersStay;
    var t := Perform(s, a).value;
    match a
    case Spurious(w) =>
      WakeMoves(s, w);
      MoveKeeps(s, t, w, Keep);
    case Go(w, c) =>
      ActOthers(s, w, c);
      ActMoves(s, w, c);
      MoveKeeps(s, t, w, MoveOf(s, s.workers[w].pc));
  }

  lemma WakeMoves(s: State, w: nat)
    requires w < |s.workers| && s.workers[w].pc == Asleep
    ensures var t := With(s, w, s.workers[w].(pc := Awake));
            OthersStay(s, t, w) && Moves(s, t, w, Keep)
  {
  }

  // ----- waking up --------------------------------------------------------

  /** In parseHyperlinks, from its lock on to the end of its broadcast. */
  predicate InParsing(pc: Pc) {
    pc == NextLink || pc == PushLink || pc == LeaveParse || pc == Broadcast
    || (pc.WantList? && pc.site == InParse) || (pc.InList? && pc.site == InParse)
  }

  /** A worker that has put an entry in and still has its broadcast to make. */
  predicate WillBroadcast(v: Worker) {
    v.pushed && InParsing(v.pc)
  }

  /** No wake-up is lost: workers sleep on a queue that is not empty only
      until a broadcast that is sure to come. */
  ghost predicate WakeUpsCome(s: State) {
    s.queue != [] && (exists w :: 0 <= w < |s.workers| && s.workers[w].pc == Asleep) ==>
      exists w :: 0 <= w < |s.workers| && WillBroadcast(s.workers[w])
  }

  /** A step changes nothing about the other workers, but for a broadcast,
      which leaves none asleep. */
  lemma ActAlone(s: State, w: nat, c: Choice)
    requires w < |s.workers| && Act(s, w, c).Some?
    ensures var t := Act(s, w, c).value;
            && |t.workers| == |s.workers|
            && (s.workers[w].pc != Broadcast ==> t.workers == s.workers[w := t.workers[w]])
            && (s.workers[w].pc == Broadcast ==>
                 (forall x {:trigger t.workers[x]} :: 0 <= x < |s.workers| ==> t.workers[x].pc != Asleep)
                 && (forall x {:trigger t.workers[x]} :: 0 <= x < |s.workers| && x != w ==>
                      || t.workers[x] == s.workers[x]
                      || (s.workers[x].pc == Asleep && t.workers[x] == s.workers[x].(pc := Awake))))
  {
  }

  /** What a step of w means for its own part in waking the others. */
  lemma ActWakes(s: State, w: nat, c: Choice)
    requires w < |s.workers| && Act(s, w, c).Some? && s.workers[w].pc != Broadcast
    ensures var t := Act(s, w, c).value;
            && |t.workers| == |s.workers|
            && (t.workers[w].pc == Asleep ==> t.queue == [])
            && (WillBroadcast(s.workers[w]) ==> WillBroadcast(t.workers[w]))
            && (s.queue == [] && t.queue != [] ==> WillBroadcast(t.workers[w]))
  {
  }

  lemma WakeUpsKept(s: State, a: Action)
    requires WakeUpsCome(s) && Perform(s, a).Some?
    ensures WakeUpsCome(Perform(s, a).value)
  {
    hide Act, WillBroadcast;
    var t, w := Perform(s, a).value, a.worker;
    if t.queue != [] && exists x :: 0 <= x < |t.workers| && t.workers[x].pc == Asleep {
      var x :| 0 <= x < |t.workers| && t.workers[x].pc == Asleep;
      if a.Go? {
        ActAlone(s, w, a.choice);
        assert s.workers[w].pc != Broadcast;
        ActWakes(s, w, a.choice);
        if s.queue == [] {
          assert WillBroadcast(t.workers[w]);
        } else {
          assert s.workers[x].pc == Asleep;
          var p :| 0 <= p < |s.workers| && WillBroadcast(s.workers[p]);
          assert WillBroadcast(t.workers[p]);
        }
      } else {
        assert s.workers[x].pc == Asleep;
        var p :| 0 <= p < |s.workers| && WillBroadcast(s.workers[p]);
        AsleepIsQuiet(s.workers[w]);
        assert WillBroadcast(t.workers[p]);
      }
    }
  }

  lemma AsleepIsQuiet(v: Worker)
    requires v.pc == Asleep
    ensures !WillBroadcast(v)
  {
  }

  // ----- what is in hand --------------------------------------------------

  /** Between the two locks of checkUrl and the push in parseHyperlinks there
      is a link at hand. */
  predicate AtLink(pc: Pc) {
    pc == PushLink || (pc.WantList? && pc.site == InParse) || (pc.InList? && pc.site == InParse)
  }

  ghost predicate WorkerFits(v: Worker) {
    && v.entry.depth <= 4
    && (AtLink(v.pc) ==> v.links != [])
    && (v.pc == WantParse || InParsing(v.pc) ==> v.entry.depth <= 3)
  }

  /** Depths stay within bounds; front is never asked of an empty queue. */
  ghost predicate Fits(s: State) {
    && (forall w {:trigger s.workers[w]} :: 0 <= w < |s.workers| ==> WorkerFits(s.workers[w]))
    && (forall w {:trigger s.workers[w]} :: 0 <= w < |s.workers| && s.workers[w].pc == TakeEntry ==> s.queue != [])
    && Flows(s)
  }

  /** Entries go through the queue in order and none is lost. */
  ghost predicate Flows(s: State) {
    && (forall i {:trigger s.added[i]} :: 0 <= i < |s.added| ==> s.added[i].depth <= 4)
    && s.added == s.taken + s.queue
  }

  lemma ActFlows(s: State, w: nat, c: Choice)
    requires w < |s.workers| && Act(s, w, c).Some? && WorkerFits(s.workers[w]) && Flows(s)
    ensures Flows(Act(s, w, c).value)
  {
    if s.workers[w].pc == TakeEntry && s.queue != [] {
      assert s.taken + s.queue == s.taken + [s.queue[0]] + s.queue[1..];
    }
  }

  lemma ActFits(s: State, w: nat, c: Choice)
    requires w < |s.workers| && Act(s, w, c).Some? && WorkerFits(s.workers[w]) && Flows(s)
    ensures |Act(s, w, c).value.workers| == |s.workers| && WorkerFits(Act(s, w, c).value.workers[w])
  {
    FrontFits(s);
    hide Flows;
    if Wanted(s.workers[w].pc).Some? {
      EnterFits(s.workers[w]);
    }
  }

  lemma EnterFits(v: Worker)
    requires WorkerFits(v) && Wanted(v.pc).Some?
    ensures WorkerFits(v.(pc := Entered(v.pc)))
  {
  }

  lemma FrontFits(s: State)
    requires Flows(s)
    ensures s.queue != [] ==> s.queue[0].depth <= 4
  {
    if s.queue != [] {
      assert s.added[|s.taken|] == s.queue[0];
    }
  }

  lemma ActQueue(s: State, w: nat, c: Choice)
    requires w < |s.workers| && Act(s, w, c).Some?
    ensures var t := Act(s, w, c).value;
            && |t.workers| == |s.workers|
            && (t.workers[w].pc == TakeEntry ==> t.queue != [])
            && (t.queue == [] && s.queue != [] ==> s.workers[w].pc == TakeEntry)
  {
  }

  lemma FitsKept(s: State, a: Action)
    requires Owned(s) && Fits(s) && Perform(s, a).Some?
    ensures Fits(Perform(s, a).value)
  {
    hide Act, WorkerFits;
    var t, w := Perform(s, a).value, a.worker;
    if a.Go? {
      ActFits(s, w, a.choice);
      ActQueue(s, w, a.choice);
      ActFlows(s, w, a.choice);
      ActAlone(s, w, a.choice);
      forall x {:trigger t.workers[x]} | 0 <= x < |t.workers|
        ensures WorkerFits(t.workers[x]) && (t.workers[x].pc == TakeEntry ==> t.queue != [])
      {
        if x != w {
          AwakeFits(s.workers[x]);
          if s.workers[x].pc == TakeEntry && s.workers[w].pc == TakeEntry {
            MutualExclusion(s, x, w, QueueLock);
          }
        }
      }
    } else {
      AwakeFits(s.workers[w]);
    }
  }

  lemma AwakeFits(v: Worker)
    requires WorkerFits(v)
    ensures v.pc == Asleep ==> WorkerFits(v.(pc := Awake))
  {
  }

  // ----- progress ---------------------------------------------------------

  /** Some worker can go on, or all sleep and there is nothing to do. */
  lemma Progress(s: State)
    requires Owned(s) && Fits(s) && WakeUpsCome(s) && |s.workers| > 0
    ensures (exists w: nat, c :: w < |s.workers| && Act(s, w, c).Some?)
         || (s.queue == [] && forall w :: 0 <= w < |s.workers| ==> s.workers[w].pc == Asleep)
  {
    var c := Choice(false, Nothing);
    if forall w: nat :: w < |s.workers| ==> Act(s, w, c).None? {
      forall w: nat | w < |s.workers|
        ensures Stuck(s, w)
      {
        assert Act(s, w, c).None?;
        NoneIsStuck(s, w, c);
      }
      forall w: nat | w < |s.workers|
        ensures s.workers[w].pc == Asleep
      {
        assert Stuck(s, w);
        if s.workers[w].pc != Asleep {
          var l := Wanted(s.workers[w].pc).value;
          HolderIsStuck(s, l);
          var v := s.owner[l];
          assert Stuck(s, v);
          var k := Wanted(s.workers[v].pc).value;
          HolderIsStuck(s, k);
          assert false;
        }
      }
      assert s.workers[0].pc == Asleep;
      assert forall w :: 0 <= w < |s.workers| ==> !WillBroadcast(s.workers[w]);
    }
  }

  /** A worker that cannot go on sleeps, or waits for a lock that is taken. */
  ghost predicate Stuck(s: State, w: nat)
    requires w < |s.workers|
  {
    s.workers[w].pc == Asleep || (Wanted(s.workers[w].pc).Some? && Wanted(s.workers[w].pc).value in s.owner)
  }

  lemma NoneIsStuck(s: State, w: nat, c: Choice)
    requires Fits(s) && w < |s.workers| && Act(s, w, c).None?
    ensures Stuck(s, w)
  {
  }

  /** If the holder of a lock waits, the lock is that of the queue, and the
      holder waits for that of a list. */
  lemma HolderIsStuck(s: State, l: Lock)
    requires Owned(s) && l in s.owner && Stuck(s, s.owner[l])
    ensures l == QueueLock && Wanted(s.workers[s.owner[l]].pc).Some? && Wanted(s.workers[s.owner[l]].pc).value.ListLock?
  {
    assert Holds(s.workers[s.owner[l]].pc, l);
  }

  // ----- how many pages are fetched ---------------------------------------

  /** How many pages one entry can lead to, with at most k links per page. */
  function Reach(k: nat, depth: nat): (r: nat)
    ensures r >= 1
    decreases 4 - depth
  {
    if depth >= 4 then 1 else 1 + k * Reach(k, depth + 1)
  }

  function QueueReach(k: nat, q: seq<Entry>): nat {
    if q == [] then 0 else Reach(k, q[0].depth) + QueueReach(k, q[1..])
  }

  /** A worker with an entry that it has not fetched yet. */
  predicate BeforeFetch(pc: Pc) {
    pc == LeaveQueue || (pc.WantList? && pc.site == InRun) || (pc.InList? && pc.site == InRun)
    || pc == WantNumber || pc == InNumber || pc == WantFetch || pc == InFetch
  }

  /** A worker with links that it has not put in yet. */
  predicate BeforePush(pc: Pc) {
    pc == WantSave(Visited) || pc == InSave(Visited) || pc == WantParse || pc == NextLink || AtLink(pc)
  }

  function Times(n: nat, r: nat): nat { n * r }

  /** How many fetches the work in hand can lead to. */
  function Pending(k: nat, v: Worker): nat {
    if BeforeFetch(v.pc) then Reach(k, v.entry.depth)
    else if BeforePush(v.pc) && v.entry.depth <= 3 then Times(|v.links|, Reach(k, v.entry.depth + 1))
    else 0
  }

  function AllPending(k: nat, vs: seq<Worker>): nat {
    if vs == [] then 0 else Pending(k, vs[0]) + AllPending(k, vs[1..])
  }

  function Potential(k: nat, s: State): nat {
    s.fetches + QueueReach(k, s.queue) + AllPending(k, s.workers)
  }

  lemma {:induction false} QueueReachAdd(k: nat, q: seq<Entry>, e: Entry)
    ensures QueueReach(k, q + [e]) == QueueReach(k, q) + Reach(k, e.depth)
  {
    if q == [] {
      assert [e][1..] == [];
    } else {
      assert (q + [e])[1..] == q[1..] + [e];
      QueueReachAdd(k, q[1..], e);
    }
  }

  lemma {:induction false} PendingUpdate(k: nat, vs: seq<Worker>, w: nat, v: Worker)
    requires w < |vs|
    ensures AllPending(k, vs[w := v]) == AllPending(k, vs) - Pending(k, vs[w]) + Pending(k, v)
  {
    if w > 0 {
      assert vs[w := v][1..] == vs[1..][w-1 := v];
      PendingUpdate(k, vs[1..], w - 1, v);
    } else {
      assert vs[w := v][1..] == vs[1..];
    }
  }

  lemma {:induction false} PendingWake(k: nat, vs: seq<Worker>)
    ensures AllPending(k, WakeAll(vs)) == AllPending(k, vs)
  {
    if vs != [] {
      assert WakeAll(vs)[1..] == WakeAll(vs[1..]);
      PendingWake(k, vs[1..]);
    }
  }

  lemma LinksReach(links: nat, k: nat, d: nat)
    requires links <= k && d <= 3
    ensures Times(links, Reach(k, d + 1)) < Reach(k, d)
  {
    var r := Reach(k, d + 1);
    assert (k - links) * r >= 0;
    assert k * r == (k - links) * r + links * r;
  }

  lemma OneLink(links: seq<nat>, r: nat)
    requires links != []
    ensures Times(|links|, r) == Times(|links[1..]|, r) + r
  {
  }

  /** A page never shows more than k links. */
  predicate Sparse(k: nat, c: Choice) {
    c.fetched.Received? ==> |c.fetched.links| <= k
  }

  /** What one worker's step does to the work in hand and in the queue. */
  lemma StepPending(k: nat, s: State, w: nat, c: Choice)
    requires w < |s.workers| && Act(s, w, c).Some? && WorkerFits(s.workers[w]) && Sparse(k, c)
    ensures var t := Act(s, w, c).value;
            && |t.workers| == |s.workers|
            && t.fetches + QueueReach(k, t.queue) + Pending(k, t.workers[w])
            <= s.fetches + QueueReach(k, s.queue) + Pending(k, s.workers[w])
  {
    hide Act, WorkerFits, Reach, QueueReach, Pending, Sparse;
    match s.workers[w].pc
    case TakeEntry => TakePending(k, s, w, c);
    case InFetch => FetchPending(k, s, w, c);
    case PushLink => PushPending(k, s, w, c);
    case _ => RestPending(k, s, w, c);
  }

  lemma TakePending(k: nat, s: State, w: nat, c: Choice)
    requires w < |s.workers| && Act(s, w, c).Some? && s.workers[w].pc == TakeEntry
    ensures var t := Act(s, w, c).value;
            && |t.workers| == |s.workers| && t.fetches == s.fetches
            && QueueReach(k, t.queue) + Pending(k, t.workers[w]) == QueueReach(k, s.queue) + Pending(k, s.workers[w])
  {
  }

  lemma FetchPending(k: nat, s: State, w: nat, c: Choice)
    requires w < |s.workers| && Act(s, w, c).Some? && s.workers[w].pc == InFetch && Sparse(k, c)
    ensures var t := Act(s, w, c).value;
            && |t.workers| == |s.workers| && t.fetches == s.fetches + 1 && t.queue == s.queue
            && Pending(k, t.workers[w]) + 1 <= Pending(k, s.workers[w])
  {
    hide Times, Reach;
    if s.workers[w].entry.depth <= 3 && c.fetched.Received? {
      LinksReach(|c.fetched.links|, k, s.workers[w].entry.depth);
    }
  }

  lemma PushPending(k: nat, s: State, w: nat, c: Choice)
    requires w < |s.workers| && Act(s, w, c).Some? && s.workers[w].pc == PushLink && WorkerFits(s.workers[w])
    ensures var t := Act(s, w, c).value;
            && |t.workers| == |s.workers| && t.fetches == s.fetches
            && QueueReach(k, t.queue) + Pending(k, t.workers[w]) == QueueReach(k, s.queue) + Pending(k, s.workers[w])
  {
    hide Reach, QueueReach, Times;
    var v := s.workers[w];
    OneLink(v.links, Reach(k, v.entry.depth + 1));
    QueueReachAdd(k, s.queue, Entry(v.links[0], v.entry.depth + 1));
  }

  lemma EnterPending(k: nat, v: Worker)
    requires Wanted(v.pc).Some?
    ensures Pending(k, v.(pc := Entered(v.pc))) == Pending(k, v)
  {
  }

  lemma RestPending(k: nat, s: State, w: nat, c: Choice)
    requires w < |s.workers| && Act(s, w, c).Some? && WorkerFits(s.workers[w])
    requires s.workers[w].pc != TakeEntry && s.workers[w].pc != InFetch && s.workers[w].pc != PushLink
    ensures var t := Act(s, w, c).value;
            && |t.workers| == |s.workers| && t.fetches == s.fetches && t.queue == s.queue
            && Pending(k, t.workers[w]) <= Pending(k, s.workers[w])
  {
    hide Reach, Times, Pending, Entered;
    var v := s.workers[w];
    if Wanted(v.pc).Some? {
      EnterPending(k, v);
    } else if v.pc.InList? {
      ListPending(k, v, v.pc.list, v.pc.site, c.found);
    } else if v.pc.InSave? {
      SavePending(k, v, v.pc.list);
    } else {
      PlainPending(k, v, Act(s, w, c).value.workers[w].pc);
    }
  }

  lemma ListPending(k: nat, v: Worker, l: List, site: Site, found: bool)
    requires v.pc == InList(l, site) && WorkerFits(v)
    ensures Pending(k, v.(pc := if !found then AfterList(l, site) else if site == InRun then Top else NextLink,
                          links := if found && site == InParse then v.links[1..] else v.links)) <= Pending(k, v)
  {
    hide Reach, Times;
    if site == InParse {
      OneLink(v.links, Reach(k, v.entry.depth + 1));
    }
  }

  lemma SavePending(k: nat, v: Worker, l: List)
    requires v.pc == InSave(l)
    ensures Pending(k, v.(pc := if l == Visited && v.entry.depth <= 3 then WantParse else Top)) <= Pending(k, v)
  {
    hide Reach, Times;
  }

  lemma PlainPending(k: nat, v: Worker, to: Pc)
    requires match v.pc
             case Top => to == WantQueue
             case TestQueue => to == Asleep || to == TakeEntry
             case LeaveQueue => to == WantList(Unreached, InRun)
             case InNumber => to == WantFetch
             case NextLink => to == LeaveParse || to == WantList(Unreached, InParse)
             case LeaveParse => to == Broadcast
             case Broadcast => to == Top
             case _ => false
    ensures Pending(k, v.(pc := to)) <= Pending(k, v)
  {
    hide Reach, Times;
  }

  lemma PotentialFalls(k: nat, s: State, a: Action)
    requires Fits(s) && Perform(s, a).Some? && (a.Go? ==> Sparse(k, a.choice))
    ensures Potential(k, Perform(s, a).value) <= Potential(k, s)
  {
    hide Act, WorkerFits, Reach, QueueReach, Sparse, Pending;
    var t, w := Perform(s, a).value, a.worker;
    if a.Go? {
      StepPending(k, s, w, a.choice);
      BroadcastPending(k, s, w, a.choice);
    } else {
      PendingUpdate(k, s.workers, w, t.workers[w]);
      AwakePending(k, s.workers[w]);
    }
  }

  lemma AwakePending(k: nat, v: Worker)
    requires v.pc == Asleep
    ensures Pending(k, v) == Pending(k, v.(pc := Awake)) == 0
  {
  }

  lemma AwakeAll(vs: seq<Worker>, w: nat)
    requires w < |vs| && vs[w].pc != Asleep
    ensures WakeAll(vs)[w] == vs[w]
  {
  }

  lemma BroadcastPending(k: nat, s: State, w: nat, c: Choice)
    requires w < |s.workers| && Act(s, w, c).Some?
    ensures var t := Act(s, w, c).value;
            && |t.workers| == |s.workers|
            && AllPending(k, t.workers)
               == AllPending(k, s.workers) - Pending(k, s.workers[w]) + Pending(k, t.workers[w])
  {
    hide Pending, AllPending, WakeAll;
    var t := Act(s, w, c).value;
    if s.workers[w].pc == Broadcast {
      AwakeAll(s.workers, w);
      PendingWake(k, s.workers);
      PendingUpdate(k, WakeAll(s.workers), w, t.workers[w]);
    } else {
      ActAlone(s, w, c);
      PendingUpdate(k, s.workers, w, t.workers[w]);
    }
  }

  // ----- file numbers -----------------------------------------------------

  /** Every number that getfileseq has given out is a new one. */
  ghost predicate Counted(s: State) {
    |s.numbers| == s.fileseq && forall i {:trigger s.numbers[i]} :: 0 <= i < |s.numbers| ==> s.numbers[i] == i
  }

  lemma CountedKept(s: State, a: Action)
    requires Counted(s) && Perform(s, a).Some?
    ensures Counted(Perform(s, a).value)
  {
  }

  // ----- whole runs -------------------------------------------------------

  ghost predicate Invariant(s: State) {
    Owned(s) && WakeUpsCome(s) && Fits(s) && Counted(s)
  }

  lemma StartHolds(n: nat, url: nat)
    ensures Invariant(Start(n, url))
  {
  }

  /** Every reachable state keeps the invariant, however the steps of the
      workers are interleaved and whatever the network answers. */
  lemma {:induction false} RunKeeps(n: nat, url: nat, actions: seq<Action>)
    requires Execute(Start(n, url), actions).Some?
    ensures Invariant(Execute(Start(n, url), actions).value)
    ensures |Execute(Start(n, url), actions).value.workers| == n
    decreases |actions|
  {
    hide Owned, WakeUpsCome, Fits, Counted, Perform;
    if actions == [] {
      StartHolds(n, url);
    } else {
      var front, a := actions[..|actions|-1], actions[|actions|-1];
      RunKeeps(n, url, front);
      var s := Execute(Start(n, url), front).value;
      LocksKept(s, a);
      WakeUpsKept(s, a);
      FitsKept(s, a);
      CountedKept(s, a);
      SameWorkers(s, a);
    }
  }

  lemma SameWorkers(s: State, a: Action)
    requires Perform(s, a).Some?
    ensures |Perform(s, a).value.workers| == |s.workers|
  {
  }

  /** No reachable state is a deadlock: some worker can go on, unless all sleep,
      the queue is empty, and every entry that was put in has been taken. */
  lemma NoDeadlock(n: nat, url: nat, actions: seq<Action>)
    requires n > 0 && Execute(Start(n, url), actions).Some?
    ensures var s := Execute(Start(n, url), actions).value;
            || (exists w: nat, c :: w < |s.workers| && Act(s, w, c).Some?)
            || (s.taken == s.added && forall w :: 0 <= w < |s.workers| ==> s.workers[w].pc == Asleep)
  {
    hide Owned, WakeUpsCome, Act;
    RunKeeps(n, url, actions);
    Progress(Execute(Start(n, url), actions).value);
  }

  /** A run in which no page shows more than k links. */
  ghost predicate SparseRun(k: nat, actions: seq<Action>) {
    forall i {:trigger actions[i]} :: 0 <= i < |actions| && actions[i].Go? ==> Sparse(k, actions[i].choice)
  }

  lemma {:induction false} PotentialBounded(k: nat, n: nat, url: nat, actions: seq<Action>)
    requires Execute(Start(n, url), actions).Some? && SparseRun(k, actions)
    ensures Potential(k, Execute(Start(n, url), actions).value) <= Reach(k, 0)
    decreases |actions|
  {
    hide Potential, Invariant, Perform, Sparse, Reach;
    if actions == [] {
      PotentialStart(k, n, url);
    } else {
      var front, a := actions[..|actions|-1], actions[|actions|-1];
      PotentialBounded(k, n, url, front);
      RunKeeps(n, url, front);
      InvariantFits(Execute(Start(n, url), front).value);
      PotentialFalls(k, Execute(Start(n, url), front).value, a);
    }
  }

  lemma InvariantFits(s: State)
    requires Invariant(s)
    ensures Fits(s)
  {
  }

  lemma {:induction false} IdlePending(k: nat, vs: seq<Worker>)
    requires forall w {:trigger vs[w]} :: 0 <= w < |vs| ==> vs[w].pc == Top
    ensures AllPending(k, vs) == 0
    decreases |vs|
  {
    if vs != [] {
      IdlePending(k, vs[1..]);
    }
  }

  lemma PotentialStart(k: nat, n: nat, url: nat)
    ensures Potential(k, Start(n, url)) == Reach(k, 0)
  {
    hide Reach, Pending, AllPending;
    var s := Start(n, url);
    IdlePending(k, s.workers);
    assert s.queue[1..] == [];
    assert QueueReach(k, s.queue) == Reach(k, s.queue[0].depth) + QueueReach(k, s.queue[1..]);
  }

  /** With at most k links per page, a crawl ends: no more pages are fetched
      than there are in a tree of depth four. */
  lemma BoundedCrawl(k: nat, n: nat, url: nat, actions: seq<Action>)
    requires Execute(Start(n, url), actions).Some? && SparseRun(k, actions)
    ensures Execute(Start(n, url), actions).value.fetches <= 1 + k + k * k + k * k * k + k * k * k * k
  {
    PotentialBounded(k, n, url, actions);
    ReachIs(k);
  }

  lemma ReachIs(k: nat)
    ensures Reach(k, 0) == 1 + k + k * k + k * k * k + k * k * k * k
  {
    assert Reach(k, 3) == 1 + k * Reach(k, 4) == 1 + k;
    assert Reach(k, 2) == 1 + k * (1 + k);
    assert Reach(k, 1) == 1 + k * (1 + k * (1 + k));
    assert Reach(k, 0) == 1 + k * (1 + k * (1 + k * (1 + k)));
  }
}
