/** What the spider workers do with every entry that they take, told by
    watching their runs: which answers they got, and what they did then. */
module CrawlerVisits {
  import opened Options
  import opened Crawlers
  import opened CrawlerTheorems

  // ----- what is seen of a run --------------------------------------------

  /** An answer of checkUrl's search of one list. */
  datatype Check = Found(list: List) | Missing(list: List)

  /** What is seen while the links of a page are looked at. */
  datatype Report = Answer(check: Check) | Put(entry: Entry)

  /** All that is seen of a worker from one entry to the next. */
  datatype Visit = Visit(
    entry: Entry,
    // The searches for the entry itself, its file number, and what came back.
    checks: seq<Check>,
    number: Option<nat>,
    fetched: Option<Fetched>,
    // The lists that it was saved in.
    saved: seq<List>,
    // What was done with its links, and whether the sleepers were woken.
    reports: seq<Report>,
    told: bool)

  function Checked(l: List, c: Choice): Check {
    if c.found then Found(l) else Missing(l)
  }

  function Last<T>(s: seq<T>): T
    requires s != []
  {
    s[|s|-1]
  }

  /** What is seen of the entry in hand when a worker at pc goes on, from s to
      t. */
  function NoteOn(s: State, t: State, pc: Pc, c: Choice, v: Visit): Visit {
    if pc.InList? then
      if pc.site == InRun then v.(checks := v.checks + [Checked(pc.list, c)])
      else v.(reports := v.reports + [Answer(Checked(pc.list, c))])
    else if |t.numbers| > |s.numbers| then v.(number := Some(Last(t.numbers)))
    else if pc == InFetch then v.(fetched := Some(c.fetched))
    else if pc.InSave? then v.(saved := v.saved + [pc.list])
    else if |t.added| > |s.added| then v.(reports := v.reports + [Put(Last(t.added))])
    else if pc == Broadcast then v.(told := true)
    else v
  }

  /** What one step of worker w, from s to t, adds to what was seen. */
  function Note(s: State, t: State, w: nat, c: Choice, visits: seq<Visit>): seq<Visit>
    requires w < |s.workers|
  {
    if |t.taken| > |s.taken| then visits + [Visit(Last(t.taken), [], None, None, [], [], false)]
    else if visits == [] then []
    else visits[|visits|-1 := NoteOn(s, t, s.workers[w].pc, c, Last(visits))]
  }

  /** All that is seen of worker w in a run. */
  function Watch(n: nat, url: nat, actions: seq<Action>, w: nat): seq<Visit>
    requires Execute(Start(n, url), actions).Some?
  {
    if actions == [] then []
    else
      var front, a := actions[..|actions|-1], actions[|actions|-1];
      var s, t := Execute(Start(n, url), front).value, Execute(Start(n, url), actions).value;
      var visits := Watch(n, url, front, w);
      if a.Go? && a.worker == w && w < |s.workers| then Note(s, t, w, a.choice, visits) else visits
  }

  // ----- what should be seen ----------------------------------------------

  const NOWHERE: seq<Check> := [Missing(Unreached), Missing(Unvisited), Missing(Visited)]

  /** checkUrl has found the URL in some list, or in none of the three. */
  function Search(found: Option<List>): seq<Check> {
    match found
    case None => NOWHERE
    case Some(Unreached) => [Found(Unreached)]
    case Some(Unvisited) => [Missing(Unreached), Found(Unvisited)]
    case Some(Visited) => [Missing(Unreached), Missing(Unvisited), Found(Visited)]
  }

  function Answers(checks: seq<Check>): seq<Report> {
    seq(|checks|, i requires 0 <= i < |checks| => Answer(checks[i]))
  }

  /** One link: it is put into the queue exactly if no list has it. */
  function OneLinkSeen(link: nat, found: Option<List>, depth: nat): seq<Report> {
    Answers(Search(found)) + if found.None? then [Put(Entry(link, depth))] else []
  }

  /** All links of a page, in order. */
  function LinksSeen(links: seq<nat>, found: seq<Option<List>>, depth: nat): seq<Report>
    requires |found| == |links|
  {
    if links == [] then []
    else
      var k := |links| - 1;
      LinksSeen(links[..k], found[..k], depth) + OneLinkSeen(links[k], found[k], depth)
  }

  ghost predicate Followed(reports: seq<Report>, links: seq<nat>, depth: nat) {
    exists found :: |found| == |links| && reports == LinksSeen(links, found, depth)
  }

  /** A list has the entry: nothing more is done. */
  ghost predicate Dropped(v: Visit) {
    && v.number == None && v.fetched == None && v.saved == [] && v.reports == [] && !v.told
    && exists l :: v.checks == Search(Some(l))
  }

  /** No list has it: it is fetched and saved, and the links of a page that is
      not too deep are followed. */
  ghost predicate Followable(v: Visit) {
    && v.checks == NOWHERE && v.number.Some? && v.fetched.Some?
    && match v.fetched.value
       case NotConnected => v.saved == [Unreached] && v.reports == [] && !v.told
       case NotReceived => v.saved == [Unvisited] && v.reports == [] && !v.told
       case Nothing => v.saved == [] && v.reports == [] && !v.told
       case Received(links) =>
         && v.saved == [Visited]
         && if v.entry.depth <= 3 then v.told && Followed(v.reports, links, v.entry.depth + 1)
            else v.reports == [] && !v.told
  }

  ghost predicate Finished(v: Visit) {
    Dropped(v) || Followable(v)
  }

  ghost predicate AllFinished(visits: seq<Visit>) {
    forall i :: 0 <= i < |visits| ==> Finished(visits[i])
  }

  // ----- what is seen at each place in the code ---------------------------

  /** The worker has no entry in hand. */
  predicate AtRest(pc: Pc) {
    pc == Top || pc == WantQueue || pc == TestQueue || pc == Asleep || pc == Awake || pc == TakeEntry
  }

  /** The searches that have been made when the next one is in list l. */
  function Before(l: List): seq<Check> {
    match l
    case Unreached => []
    case Unvisited => [Missing(Unreached)]
    case Visited => [Missing(Unreached), Missing(Unvisited)]
  }

  ghost predicate NotFetched(v: Visit) {
    v.fetched == None && v.saved == [] && v.reports == [] && !v.told
  }

  /** The page has been saved, and the links up to the k-th are done. */
  ghost predicate Following(v: Visit, links: seq<nat>, partial: seq<Check>) {
    && v.checks == NOWHERE && v.number.Some? && v.saved == [Visited] && !v.told && v.entry.depth <= 3
    && v.fetched.Some? && v.fetched.value.Received?
    && exists k: nat, found :: Progressed(v, links, partial, k, found)
  }

  ghost predicate Progressed(v: Visit, links: seq<nat>, partial: seq<Check>, k: nat, found: seq<Option<List>>)
    requires v.fetched.Some? && v.fetched.value.Received?
  {
    var all := v.fetched.value.links;
    && k == |found| <= |all| && links == all[k..]
    && v.reports == LinksSeen(all[..k], found, v.entry.depth + 1) + Answers(partial)
  }

  /** What is seen of the entry in hand. */
  ghost predicate Halfway(worker: Worker, v: Visit) {
    && v.entry == worker.entry
    && match worker.pc
       case LeaveQueue => v.checks == [] && v.number == None && NotFetched(v)
       case WantList(l, InRun) => v.checks == Before(l) && v.number == None && NotFetched(v)
       case InList(l, InRun) => v.checks == Before(l) && v.number == None && NotFetched(v)
       case WantNumber => v.checks == NOWHERE && v.number == None && NotFetched(v)
       case InNumber => v.checks == NOWHERE && v.number == None && NotFetched(v)
       case WantFetch => v.checks == NOWHERE && v.number.Some? && NotFetched(v)
       case InFetch => v.checks == NOWHERE && v.number.Some? && NotFetched(v)
       case WantSave(l) => Answered(worker, v, l)
       case InSave(l) => Answered(worker, v, l)
       case WantParse => Following(v, worker.links, [])
       case NextLink => Following(v, worker.links, [])
       case WantList(l, InParse) => Following(v, worker.links, Before(l)) && worker.links != []
       case InList(l, InParse) => Following(v, worker.links, Before(l)) && worker.links != []
       case PushLink => Following(v, worker.links, NOWHERE) && worker.links != []
       case LeaveParse => Following(v, worker.links, []) && worker.links == []
       case Broadcast => Following(v, worker.links, []) && worker.links == []
       case _ => false
  }

  /** The answer of the fetch decides in which list the entry is saved. */
  ghost predicate Answered(worker: Worker, v: Visit, l: List) {
    && v.checks == NOWHERE && v.number.Some? && v.saved == [] && v.reports == [] && !v.told && v.fetched.Some?
    && match v.fetched.value
       case NotConnected => l == Unreached
       case NotReceived => l == Unvisited
       case Nothing => false
       case Received(links) => l == Visited && worker.links == links
  }

  ghost predicate Seen(worker: Worker, visits: seq<Visit>) {
    if AtRest(worker.pc) then AllFinished(visits)
    else visits != [] && AllFinished(visits[..|visits|-1]) && Halfway(worker, Last(visits))
  }

  // ----- one step ---------------------------------------------------------

  /** A step with the entry in hand that does not finish it. */
  lemma SeenOn(worker: Worker, visits: seq<Visit>, v: Visit)
    requires visits != [] && AllFinished(visits[..|visits|-1])
    requires !AtRest(worker.pc) && Halfway(worker, v)
    ensures Seen(worker, visits[|visits|-1 := v])
  {
    hide Halfway, Finished;
    assert visits[|visits|-1 := v][..|visits|-1] == visits[..|visits|-1];
  }

  /** A step that finishes it. */
  lemma SeenDone(worker: Worker, visits: seq<Visit>, v: Visit)
    requires visits != [] && AllFinished(visits[..|visits|-1]) && AtRest(worker.pc) && Finished(v)
    ensures Seen(worker, visits[|visits|-1 := v])
  {
    hide Finished;
    var all := visits[|visits|-1 := v];
    assert forall i :: 0 <= i < |visits| - 1 ==> all[i] == visits[..|visits|-1][i];
  }

  lemma SeenSame(worker: Worker, visits: seq<Visit>)
    requires visits != []
    ensures visits[|visits|-1 := Last(visits)] == visits
  {
  }

  /** The next state of worker w, and what is seen of its step. */
  ghost predicate Stepped(s: State, w: nat, c: Choice, visits: seq<Visit>) {
    && w < |s.workers| && Act(s, w, c).Some? && Seen(s.workers[w], visits)
    && |Act(s, w, c).value.workers| == |s.workers|
  }

  ghost predicate StillSeen(s: State, w: nat, c: Choice, visits: seq<Visit>)
    requires Stepped(s, w, c, visits)
  {
    var t := Act(s, w, c).value;
    Seen(t.workers[w], Note(s, t, w, c, visits))
  }

  /** A lock is taken. */
  lemma EnterSeen(s: State, w: nat, c: Choice, visits: seq<Visit>)
    requires Stepped(s, w, c, visits) && Wanted(s.workers[w].pc).Some?
    ensures StillSeen(s, w, c, visits)
  {
    hide Finished, Following, NotFetched, AllFinished;
    if visits != [] {
      SeenSame(s.workers[w], visits);
    }
  }

  /** At rest, without an entry. */
  lemma RestSeen(s: State, w: nat, c: Choice, visits: seq<Visit>)
    requires Stepped(s, w, c, visits) && (s.workers[w].pc == Top || s.workers[w].pc == TestQueue)
    ensures StillSeen(s, w, c, visits)
  {
    hide Finished, AllFinished;
    if visits != [] {
      SeenSame(s.workers[w], visits);
    }
  }

  lemma TakeSeen(s: State, w: nat, c: Choice, visits: seq<Visit>)
    requires Stepped(s, w, c, visits) && s.workers[w].pc == TakeEntry
    ensures StillSeen(s, w, c, visits)
  {
    hide Finished;
    var t := Act(s, w, c).value;
    var v := Visit(Last(t.taken), [], None, None, [], [], false);
    assert (visits + [v])[..|visits|] == visits;
  }

  lemma PlainSeen(s: State, w: nat, c: Choice, visits: seq<Visit>)
    requires Stepped(s, w, c, visits)
    requires s.workers[w].pc == LeaveQueue || s.workers[w].pc == NextLink || s.workers[w].pc == LeaveParse
    ensures StillSeen(s, w, c, visits)
  {
    hide Finished, Following, AllFinished;
    SeenSame(s.workers[w], visits);
    SeenOn(Act(s, w, c).value.workers[w], visits, Last(visits));
  }

  /** checkUrl, called by Run. */
  lemma CheckSeen(s: State, w: nat, c: Choice, visits: seq<Visit>, l: List)
    requires Stepped(s, w, c, visits) && s.workers[w].pc == InList(l, InRun)
    ensures StillSeen(s, w, c, visits)
  {
    hide AllFinished, Finished;
    var t := Act(s, w, c).value;
    var v := Last(visits);
    var u := v.(checks := v.checks + [Checked(l, c)]);
    if c.found {
      FoundThere(u, l);
      SeenDone(t.workers[w], visits, u);
    } else {
      SeenOn(t.workers[w], visits, u);
    }
  }

  lemma FoundThere(v: Visit, l: List)
    requires v.checks == Before(l) + [Found(l)] && v.number == None && NotFetched(v)
    ensures Finished(v)
  {
    assert v.checks == Search(Some(l));
  }

  lemma NumberSeen(s: State, w: nat, c: Choice, visits: seq<Visit>)
    requires Stepped(s, w, c, visits) && s.workers[w].pc == InNumber
    ensures StillSeen(s, w, c, visits)
  {
    hide AllFinished, Finished;
    var t := Act(s, w, c).value;
    SeenOn(t.workers[w], visits, Last(visits).(number := Some(Last(t.numbers))));
  }

  lemma FetchSeen(s: State, w: nat, c: Choice, visits: seq<Visit>)
    requires Stepped(s, w, c, visits) && s.workers[w].pc == InFetch
    ensures StillSeen(s, w, c, visits)
  {
    hide AllFinished;
    var t := Act(s, w, c).value;
    var u := Last(visits).(fetched := Some(c.fetched));
    if c.fetched.Nothing? {
      SeenDone(t.workers[w], visits, u);
    } else {
      SeenOn(t.workers[w], visits, u);
    }
  }

  lemma SaveSeen(s: State, w: nat, c: Choice, visits: seq<Visit>, l: List)
    requires Stepped(s, w, c, visits) && s.workers[w].pc == InSave(l)
    ensures StillSeen(s, w, c, visits)
  {
    hide AllFinished, Finished, Following, Answered;
    var t := Act(s, w, c).value;
    var v := Last(visits);
    var u := v.(saved := v.saved + [l]);
    SavedThere(s.workers[w], v, l, u);
    if l == Visited && s.workers[w].entry.depth <= 3 {
      SeenOn(t.workers[w], visits, u);
    } else {
      SeenDone(t.workers[w], visits, u);
    }
  }

  lemma SavedThere(worker: Worker, v: Visit, l: List, u: Visit)
    requires Answered(worker, v, l) && u == v.(saved := v.saved + [l])
    ensures if l == Visited && v.entry.depth <= 3 then Following(u, worker.links, []) else Finished(u)
  {
    hide Followed, Following;
    assert [] + [l] == [l];
    if l == Visited && v.entry.depth <= 3 {
      NoLinksYet(u, worker.links);
    }
  }

  lemma NoLinksYet(v: Visit, links: seq<nat>)
    requires v.checks == NOWHERE && v.number.Some? && v.saved == [Visited] && !v.told && v.entry.depth <= 3
    requires v.fetched == Some(Received(links)) && v.reports == []
    ensures Following(v, links, [])
  {
    assert links[..0] == [] && links[0..] == links;
    assert Progressed(v, links, [], 0, []);
  }

  /** checkUrl, called for a link. */
  lemma LinkSeen(s: State, w: nat, c: Choice, visits: seq<Visit>, l: List)
    requires Stepped(s, w, c, visits) && s.workers[w].pc == InList(l, InParse)
    ensures StillSeen(s, w, c, visits)
  {
    hide AllFinished, Finished, Following;
    var t := Act(s, w, c).value;
    var v := Last(visits);
    var u := v.(reports := v.reports + [Answer(Checked(l, c))]);
    if c.found {
      LinkFound(v, s.workers[w].links, l);
    } else {
      LinkMissing(v, s.workers[w].links, l);
      assert Before(Unreached) + [Missing(Unreached)] == Before(Unvisited);
      assert Before(Unvisited) + [Missing(Unvisited)] == Before(Visited);
      assert Before(Visited) + [Missing(Visited)] == NOWHERE;
    }
    SeenOn(t.workers[w], visits, u);
  }

  lemma AnswersMore(checks: seq<Check>, x: Check)
    ensures Answers(checks + [x]) == Answers(checks) + [Answer(x)]
  {
  }

  lemma LinkMissing(v: Visit, links: seq<nat>, l: List)
    requires Following(v, links, Before(l))
    ensures Following(v.(reports := v.reports + [Answer(Missing(l))]), links, Before(l) + [Missing(l)])
  {
    hide Answers, LinksSeen;
    var k: nat, found :| Progressed(v, links, Before(l), k, found);
    var u := v.(reports := v.reports + [Answer(Missing(l))]);
    AnswersMore(Before(l), Missing(l));
    assert Progressed(u, links, Before(l) + [Missing(l)], k, found);
  }

  /** One link more is done. */
  lemma LinkDone(v: Visit, links: seq<nat>, k: nat, found: seq<Option<List>>, partial: seq<Check>, f: Option<List>,
                 u: Visit, seen: seq<Report>)
    requires Following(v, links, partial) && Progressed(v, links, partial, k, found) && links != []
    requires u == v.(reports := v.reports + seen)
    requires Answers(partial) + seen == OneLinkSeen(links[0], f, v.entry.depth + 1)
    ensures Following(u, links[1..], [])
  {
    hide Answers, OneLinkSeen;
    var all := v.fetched.value.links;
    assert all[..k+1][..k] == all[..k] && all[..k+1][k] == links[0] && all[k+1..] == links[1..];
    assert (found + [f])[..k] == found;
    assert LinksSeen(all[..k+1], found + [f], v.entry.depth + 1)
        == LinksSeen(all[..k], found, v.entry.depth + 1) + (Answers(partial) + seen);
    NoAnswers();
    assert Progressed(u, links[1..], [], k + 1, found + [f]);
  }

  lemma NoAnswers()
    ensures Answers([]) == []
  {
  }

  lemma LinkFound(v: Visit, links: seq<nat>, l: List)
    requires Following(v, links, Before(l)) && links != []
    ensures Following(v.(reports := v.reports + [Answer(Found(l))]), links[1..], [])
  {
    hide LinksSeen;
    var k: nat, found :| Progressed(v, links, Before(l), k, found);
    assert Before(l) + [Found(l)] == Search(Some(l));
    LinkDone(v, links, k, found, Before(l), Some(l), v.(reports := v.reports + [Answer(Found(l))]), [Answer(Found(l))]);
  }

  lemma LinkPut(v: Visit, links: seq<nat>)
    requires Following(v, links, NOWHERE) && links != []
    ensures Following(v.(reports := v.reports + [Put(Entry(links[0], v.entry.depth + 1))]), links[1..], [])
  {
    hide LinksSeen, Answers;
    var k: nat, found :| Progressed(v, links, NOWHERE, k, found);
    var put := [Put(Entry(links[0], v.entry.depth + 1))];
    LinkDone(v, links, k, found, NOWHERE, None, v.(reports := v.reports + put), put);
  }

  lemma PushSeen(s: State, w: nat, c: Choice, visits: seq<Visit>)
    requires Stepped(s, w, c, visits) && s.workers[w].pc == PushLink
    ensures StillSeen(s, w, c, visits)
  {
    hide AllFinished, Finished, Following;
    var t := Act(s, w, c).value;
    var v := Last(visits);
    LinkPut(v, s.workers[w].links);
    SeenOn(t.workers[w], visits, v.(reports := v.reports + [Put(Last(t.added))]));
  }

  lemma BroadcastSeen(s: State, w: nat, c: Choice, visits: seq<Visit>)
    requires Stepped(s, w, c, visits) && s.workers[w].pc == Broadcast
    ensures StillSeen(s, w, c, visits)
  {
    hide AllFinished, LinksSeen, WakeAll;
    var t := Act(s, w, c).value;
    var v := Last(visits);
    var k: nat, found :| Progressed(v, [], [], k, found);
    var all := v.fetched.value.links;
    NoAnswers();
    assert |all[k..]| == 0 && all[..k] == all;
    assert v.reports == LinksSeen(all, found, v.entry.depth + 1);
    assert Followed(v.reports, all, v.entry.depth + 1);
    SeenDone(t.workers[w], visits, v.(told := true));
  }

  lemma ActSeen(s: State, w: nat, c: Choice, visits: seq<Visit>)
    requires Stepped(s, w, c, visits)
    ensures StillSeen(s, w, c, visits)
  {
    hide StillSeen, Act, Seen;
    var pc := s.workers[w].pc;
    if Wanted(pc).Some? {
      EnterSeen(s, w, c, visits);
    } else {
      NotAsleep(s, w, c);
      match pc
      case TakeEntry => TakeSeen(s, w, c, visits);
      case InList(l, InRun) => CheckSeen(s, w, c, visits, l);
      case InList(l, InParse) => LinkSeen(s, w, c, visits, l);
      case InNumber => NumberSeen(s, w, c, visits);
      case InFetch => FetchSeen(s, w, c, visits);
      case InSave(l) => SaveSeen(s, w, c, visits, l);
      case PushLink => PushSeen(s, w, c, visits);
      case Broadcast => BroadcastSeen(s, w, c, visits);
      case Top => RestSeen(s, w, c, visits);
      case TestQueue => RestSeen(s, w, c, visits);
      case _ => PlainSeen(s, w, c, visits);
    }
  }

  lemma NotAsleep(s: State, w: nat, c: Choice)
    requires w < |s.workers| && Act(s, w, c).Some?
    ensures s.workers[w].pc != Asleep
  {
  }

  // ----- whole runs -------------------------------------------------------

  /** The state of a run. */
  function After(n: nat, url: nat, actions: seq<Action>): State
    requires Execute(Start(n, url), actions).Some?
  {
    Execute(Start(n, url), actions).value
  }

  /** What others do leaves a worker alone, or wakes it. */
  lemma OthersSeen(s: State, a: Action, w: nat, visits: seq<Visit>)
    requires Perform(s, a).Some? && w < |s.workers| && !(a.Go? && a.worker == w) && Seen(s.workers[w], visits)
    ensures |Perform(s, a).value.workers| == |s.workers| && Seen(Perform(s, a).value.workers[w], visits)
  {
    hide AllFinished, Halfway;
  }

  /** At every place in the code, what is seen is as it should be. */
  lemma {:induction false} WatchSeen(n: nat, url: nat, actions: seq<Action>, w: nat)
    requires Execute(Start(n, url), actions).Some? && w < n
    ensures |After(n, url, actions).workers| == n
    ensures Seen(After(n, url, actions).workers[w], Watch(n, url, actions, w))
    decreases |actions|
  {
    hide Seen, Perform, Note, Invariant;
    RunKeeps(n, url, actions);
    if actions == [] {
      StartSeen(n, url, w);
    } else {
      var front, a := actions[..|actions|-1], actions[|actions|-1];
      WatchSeen(n, url, front, w);
      StepSeen(After(n, url, front), a, w, Watch(n, url, front, w));
    }
  }

  lemma StartSeen(n: nat, url: nat, w: nat)
    requires w < n
    ensures Seen(Start(n, url).workers[w], [])
  {
  }

  lemma StepSeen(s: State, a: Action, w: nat, visits: seq<Visit>)
    requires Perform(s, a).Some? && w < |s.workers| && Seen(s.workers[w], visits)
    ensures |Perform(s, a).value.workers| == |s.workers|
    ensures var t := Perform(s, a).value;
            Seen(t.workers[w], if a.Go? && a.worker == w then Note(s, t, w, a.choice, visits) else visits)
  {
    hide Seen, Act, Note;
    SameWorkers(s, a);
    if a.Go? && a.worker == w {
      ActSeen(s, w, a.choice, visits);
    } else {
      OthersSeen(s, a, w, visits);
    }
  }

  /** In every run, each worker has dealt with every entry that it took but the
      one in hand: it was found in a list and dropped, or it was fetched, saved
      in the list that the answer asks for, and if it was received and no deeper
      than 3, each of its links, in order, was found in a list or put into the
      queue one level deeper, and then the sleepers were woken. */
  lemma VisitsFinished(n: nat, url: nat, actions: seq<Action>, w: nat)
    requires Execute(Start(n, url), actions).Some? && w < n
    ensures |After(n, url, actions).workers| == n
    ensures var visits := Watch(n, url, actions, w);
            if AtRest(After(n, url, actions).workers[w].pc) then AllFinished(visits)
            else visits != [] && AllFinished(visits[..|visits|-1])
  {
    hide AllFinished, Halfway, Watch;
    WatchSeen(n, url, actions, w);
  }

  /** Whoever is about to wake the sleepers has followed all links of a page that
      was received. */
  lemma BroadcastFollowed(n: nat, url: nat, actions: seq<Action>, w: nat)
    requires Execute(Start(n, url), actions).Some? && w < n
    ensures |After(n, url, actions).workers| == n
    ensures After(n, url, actions).workers[w].pc == Broadcast ==>
              var visits := Watch(n, url, actions, w);
              && visits != [] && var v := Last(visits);
                 && v.fetched.Some? && v.fetched.value.Received? && v.entry.depth <= 3
                 && Followed(v.reports, v.fetched.value.links, v.entry.depth + 1)
  {
    hide AllFinished, LinksSeen, Watch;
    WatchSeen(n, url, actions, w);
    if After(n, url, actions).workers[w].pc == Broadcast {
      var v := Last(Watch(n, url, actions, w));
      var k: nat, found :| Progressed(v, [], [], k, found);
      var all := v.fetched.value.links;
      NoAnswers();
      assert |all[k..]| == 0 && all[..k] == all;
      assert v.reports == LinksSeen(all, found, v.entry.depth + 1);
    }
  }

  // ----- nothing is left out ----------------------------------------------

  ghost predicate Taken(n: nat, url: nat, actions: seq<Action>, e: Entry)
    requires Execute(Start(n, url), actions).Some?
  {
    exists w: nat, k: nat :: w < n && VisitOf(n, url, actions, w, k, e)
  }

  /** The k-th entry that worker w took is e. */
  ghost predicate VisitOf(n: nat, url: nat, actions: seq<Action>, w: nat, k: nat, e: Entry)
    requires Execute(Start(n, url), actions).Some?
  {
    k < |Watch(n, url, actions, w)| && Watch(n, url, actions, w)[k].entry == e
  }

  /** A visit stays, and so does its entry. */
  lemma NoteStays(s: State, t: State, w: nat, c: Choice, visits: seq<Visit>, k: nat)
    requires w < |s.workers| && k < |visits|
    ensures k < |Note(s, t, w, c, visits)| && Note(s, t, w, c, visits)[k].entry == visits[k].entry
  {
  }

  lemma VisitStays(n: nat, url: nat, actions: seq<Action>, w: nat, k: nat, e: Entry)
    requires actions != [] && Execute(Start(n, url), actions).Some?
    requires VisitOf(n, url, actions[..|actions|-1], w, k, e)
    ensures VisitOf(n, url, actions, w, k, e)
  {
    hide Note, Perform;
    var front, a := actions[..|actions|-1], actions[|actions|-1];
    var s := After(n, url, front);
    if a.Go? && a.worker == w && w < |s.workers| {
      NoteStays(s, After(n, url, actions), w, a.choice, Watch(n, url, front, w), k);
    }
  }

  /** What is taken is taken by the worker that goes on. */
  lemma TakenBy(s: State, a: Action)
    requires Perform(s, a).Some?
    ensures var t := Perform(s, a).value;
            && (t.taken == s.taken || (a.Go? && a.worker < |s.workers| && exists e :: t.taken == s.taken + [e]))
            && s.added <= t.added
  {
  }

  /** Every entry that has been taken is one of some worker's visits. */
  lemma {:induction false} TakenVisited(n: nat, url: nat, actions: seq<Action>, i: nat)
    requires Execute(Start(n, url), actions).Some? && i < |After(n, url, actions).taken|
    ensures Taken(n, url, actions, After(n, url, actions).taken[i])
    decreases |actions|
  {
    hide Perform, Note, VisitOf, Invariant;
    RunKeeps(n, url, actions);
    if actions != [] {
      var front, a := actions[..|actions|-1], actions[|actions|-1];
      var s, t := After(n, url, front), After(n, url, actions);
      RunKeeps(n, url, front);
      TakenBy(s, a);
      if i < |s.taken| {
        TakenVisited(n, url, front, i);
        var w: nat, k: nat :| w < n && VisitOf(n, url, front, w, k, s.taken[i]);
        VisitStays(n, url, actions, w, k, s.taken[i]);
      } else {
        JustTaken(n, url, actions);
        var k := |Watch(n, url, front, a.worker)|;
        assert VisitOf(n, url, actions, a.worker, k, t.taken[i]);
      }
    }
  }

  lemma JustTaken(n: nat, url: nat, actions: seq<Action>)
    requires actions != [] && Execute(Start(n, url), actions).Some?
    requires var front, a := actions[..|actions|-1], actions[|actions|-1];
      && a.Go? && a.worker < |After(n, url, front).workers|
      && |After(n, url, actions).taken| == |After(n, url, front).taken| + 1
    ensures var front, w, t := actions[..|actions|-1], actions[|actions|-1].worker, After(n, url, actions);
            VisitOf(n, url, actions, w, |Watch(n, url, front, w)|, Last(t.taken))
  {
    hide Perform;
  }

  // ----- what was put into the queue --------------------------------------

  /** What is seen to be put into the queue stands among what was added. */
  ghost predicate PutsAdded(added: seq<Entry>, visits: seq<Visit>) {
    forall k, e :: 0 <= k < |visits| && Put(e) in visits[k].reports ==> e in added
  }

  lemma NotePuts(s: State, t: State, w: nat, c: Choice, visits: seq<Visit>)
    requires w < |s.workers| && PutsAdded(s.added, visits) && s.added <= t.added
    ensures PutsAdded(t.added, Note(s, t, w, c, visits))
  {
    var more := Note(s, t, w, c, visits);
    forall k, e | 0 <= k < |more| && Put(e) in more[k].reports
      ensures e in t.added
    {
      if k < |visits| && Put(e) in visits[k].reports {
        assert e in s.added;
      }
    }
  }

  lemma {:induction false} WatchPuts(n: nat, url: nat, actions: seq<Action>, w: nat)
    requires Execute(Start(n, url), actions).Some?
    ensures PutsAdded(After(n, url, actions).added, Watch(n, url, actions, w))
    decreases |actions|
  {
    hide Perform, Note, PutsAdded;
    if actions == [] {
      NoPuts(After(n, url, actions).added);
    } else {
      var front, a := actions[..|actions|-1], actions[|actions|-1];
      WatchPuts(n, url, front, w);
      var s, t := After(n, url, front), After(n, url, actions);
      TakenBy(s, a);
      MoreAdded(s.added, t.added, Watch(n, url, front, w));
      if a.Go? && a.worker == w && w < |s.workers| {
        NotePuts(s, t, w, a.choice, Watch(n, url, front, w));
      }
    }
  }

  lemma NoPuts(added: seq<Entry>)
    ensures PutsAdded(added, [])
  {
  }

  lemma MoreAdded(a: seq<Entry>, b: seq<Entry>, visits: seq<Visit>)
    requires PutsAdded(a, visits) && a <= b
    ensures PutsAdded(b, visits)
  {
  }

  lemma {:induction false} EachLink(links: seq<nat>, found: seq<Option<List>>, depth: nat, i: nat)
    requires |found| == |links| && i < |links|
    ensures found[i].None? ==> Put(Entry(links[i], depth)) in LinksSeen(links, found, depth)
    decreases |links|
  {
    var k := |links| - 1;
    if i < k {
      EachLink(links[..k], found[..k], depth, i);
    } else if found[i].None? {
      assert Put(Entry(links[i], depth)) in OneLinkSeen(links[k], found[k], depth);
    }
  }

  /** When all have come to rest, the whole part that can be reached has been
      dealt with: every entry that was put in has been taken, and its visit is
      finished. */
  ghost predicate AllDone(n: nat, url: nat, actions: seq<Action>)
    requires Execute(Start(n, url), actions).Some?
  {
    forall e | e in After(n, url, actions).added ::
      exists w: nat, k: nat :: w < n && VisitOf(n, url, actions, w, k, e) && Finished(Watch(n, url, actions, w)[k])
  }

  lemma RestIsDone(n: nat, url: nat, actions: seq<Action>)
    requires Execute(Start(n, url), actions).Some?
    requires var s := After(n, url, actions);
      s.taken == s.added && forall w :: 0 <= w < |s.workers| ==> s.workers[w].pc == Asleep
    ensures AllDone(n, url, actions)
  {
    hide Execute, Watch, Finished, Invariant;
    RunKeeps(n, url, actions);
    var s := After(n, url, actions);
    forall e | e in s.added
      ensures exists w: nat, k: nat ::
                w < n && VisitOf(n, url, actions, w, k, e) && Finished(Watch(n, url, actions, w)[k])
    {
      var i :| 0 <= i < |s.taken| && s.taken[i] == e;
      TakenVisited(n, url, actions, i);
      var w: nat, k: nat :| w < n && VisitOf(n, url, actions, w, k, e);
      VisitsFinished(n, url, actions, w);
      assert AtRest(s.workers[w].pc);
      assert Finished(Watch(n, url, actions, w)[k]);
    }
  }

  /** So no reachable state is stuck before everything is done. */
  lemma CrawlComplete(n: nat, url: nat, actions: seq<Action>)
    requires n > 0 && Execute(Start(n, url), actions).Some?
    ensures var s := After(n, url, actions);
            || (exists w: nat, c :: w < |s.workers| && Act(s, w, c).Some?)
            || (AllDone(n, url, actions) && Entry(url, 0) in s.added)
  {
    hide Execute, Act, AllDone;
    NoDeadlock(n, url, actions);
    var s := After(n, url, actions);
    FirstStays(n, url, actions);
    if s.taken == s.added && forall w :: 0 <= w < |s.workers| ==> s.workers[w].pc == Asleep {
      RestIsDone(n, url, actions);
    }
  }

  lemma {:induction false} FirstStays(n: nat, url: nat, actions: seq<Action>)
    requires Execute(Start(n, url), actions).Some?
    ensures Entry(url, 0) in After(n, url, actions).added
    decreases |actions|
  {
    hide Perform;
    if actions != [] {
      FirstStays(n, url, actions[..|actions|-1]);
      TakenBy(After(n, url, actions[..|actions|-1]), actions[|actions|-1]);
    }
  }

  /** Each link of a page that was followed is found in a list, or has been put
      into the queue one level deeper. */
  lemma LinksAdded(n: nat, url: nat, actions: seq<Action>, w: nat, k: nat)
      returns (found: seq<Option<List>>)
    requires Execute(Start(n, url), actions).Some? && w < n && k < |Watch(n, url, actions, w)|
    requires var v := Watch(n, url, actions, w)[k];
      Finished(v) && v.fetched.Some? && v.fetched.value.Received? && v.entry.depth <= 3
    ensures var v := Watch(n, url, actions, w)[k];
            var links := v.fetched.value.links;
            && |found| == |links| && v.reports == LinksSeen(links, found, v.entry.depth + 1)
            && forall i :: 0 <= i < |links| && found[i].None? ==>
                 Entry(links[i], v.entry.depth + 1) in After(n, url, actions).added
  {
    hide Execute, Watch, LinksSeen;
    var v := Watch(n, url, actions, w)[k];
    var links := v.fetched.value.links;
    found :| |found| == |links| && v.reports == LinksSeen(links, found, v.entry.depth + 1);
    WatchPuts(n, url, actions, w);
    forall i | 0 <= i < |links| && found[i].None?
      ensures Entry(links[i], v.entry.depth + 1) in After(n, url, actions).added
    {
      EachLink(links, found, v.entry.depth + 1, i);
    }
  }
}
