/** libspider/Crawler.cpp: the pool of spider workers as a step system. Each
    step is one stretch of code between two points where another worker may
    come in. */
module Crawlers {
  import opened Options

  // ----- the state --------------------------------------------------------

  /** An entry of the queue; the text of its URL plays no part here. */
  datatype Entry = Entry(url: nat, depth: nat)

  /** The lists that checkUrl searches, each with its own mutex. */
  datatype List = Unreached | Unvisited | Visited

  datatype Lock = QueueLock | ListLock(list: List) | NumberLock | FetchLock

  /** Whether checkUrl was called by Run or by parseHyperlinks. */
  datatype Site = InRun | InParse

  /** Where a worker stands: what it is about to do. */
  datatype Pc =
    | Top
    // fetchUrl
    | WantQueue | TestQueue | Asleep | Awake | TakeEntry | LeaveQueue
    // checkUrl
    | WantList(list: List, site: Site) | InList(list: List, site: Site)
    // getfileseq
    | WantNumber | InNumber
    | WantFetch | InFetch
    // saveUnreachHost, saveUnvisitedUrl, saveVisitedUrl
    | WantSave(list: List) | InSave(list: List)
    // parseHyperlinks
    | WantParse | NextLink | PushLink | LeaveParse | Broadcast

  datatype Worker = Worker(pc: Pc, entry: Entry, links: seq<nat>, pushed: bool)

  datatype State = State(
    workers: seq<Worker>,
    queue: seq<Entry>,
    // Who holds a lock; a lock that is not here is free.
    owner: map<Lock, nat>,
    fileseq: nat,
    // What has happened: entries put in and taken out, the number of pages
    // fetched, and the file numbers given out.
    added: seq<Entry>,
    taken: seq<Entry>,
    fetches: nat,
    numbers: seq<nat>)

  // ----- the steps --------------------------------------------------------

  datatype Fetched = NotConnected | NotReceived | Nothing | Received(links: seq<nat>)

  /** What the outside decides: whether checkUrl finds the URL, and what comes
      of a fetch. */
  datatype Choice = Choice(found: bool, fetched: Fetched)

  datatype Action =
    | Go(worker: nat, choice: Choice)
    // pthread_cond_wait may return without a broadcast.
    | Spurious(worker: nat)

  function AfterList(list: List, site: Site): Pc {
    match list
    case Unreached => WantList(Unvisited, site)
    case Unvisited => WantList(Visited, site)
    case Visited => if site == InRun then WantNumber else PushLink
  }

  /** The lock that a worker waits for. */
  function Wanted(pc: Pc): Option<Lock> {
    match pc
    case WantQueue => Some(QueueLock)
    case Awake => Some(QueueLock)
    case WantParse => Some(QueueLock)
    case WantList(l, _) => Some(ListLock(l))
    case WantSave(l) => Some(ListLock(l))
    case WantNumber => Some(NumberLock)
    case WantFetch => Some(FetchLock)
    case _ => None
  }

  /** Where a worker goes once it has the lock that it wanted. */
  function Entered(pc: Pc): Pc
    requires Wanted(pc).Some?
  {
    match pc
    case WantQueue => TestQueue
    case Awake => TestQueue
    case WantParse => NextLink
    case WantList(l, site) => InList(l, site)
    case WantSave(l) => InSave(l)
    case WantNumber => InNumber
    case WantFetch => InFetch
  }

  function With(s: State, w: nat, v: Worker): State
    requires w < |s.workers|
  {
    s.(workers := s.workers[w := v])
  }

  function Free(s: State, l: Lock): State {
    s.(owner := s.owner - {l})
  }

  function WakeAll(workers: seq<Worker>): (r: seq<Worker>)
    ensures |r| == |workers|
  {
    seq(|workers|, i requires 0 <= i < |workers| =>
          if workers[i].pc == Asleep then workers[i].(pc := Awake) else workers[i])
  }

  /** One step of worker w, if it can take one. */
  function Act(s: State, w: nat, c: Choice): Option<State>
    requires w < |s.workers|
  {
    var v := s.workers[w];
    if Wanted(v.pc).Some? then
      var l := Wanted(v.pc).value;
      if l in s.owner then None
      else Some(With(s, w, v.(pc := Entered(v.pc))).(owner := s.owner[l := w]))
    else
      match v.pc
      case Asleep => None
      case Top => Some(With(s, w, v.(pc := WantQueue)))
      case TestQueue =>
        if s.queue == [] then Some(Free(With(s, w, v.(pc := Asleep)), QueueLock))
        else Some(With(s, w, v.(pc := TakeEntry)))
      case TakeEntry =>
        if s.queue == [] then None
        else Some(With(s, w, v.(pc := LeaveQueue, entry := s.queue[0]))
                    .(queue := s.queue[1..], taken := s.taken + [s.queue[0]]))
      case LeaveQueue => Some(Free(With(s, w, v.(pc := WantList(Unreached, InRun))), QueueLock))
      case InList(l, site) =>
        var pc := if !c.found then AfterList(l, site) else if site == InRun then Top else NextLink;
        var links := if c.found && site == InParse && v.links != [] then v.links[1..] else v.links;
        Some(Free(With(s, w, v.(pc := pc, links := links)), ListLock(l)))
      case InNumber =>
        Some(Free(With(s, w, v.(pc := WantFetch)), NumberLock)
             .(fileseq := s.fileseq + 1, numbers := s.numbers + [s.fileseq]))
      case InFetch =>
        var pc := match c.fetched
                  case NotConnected => WantSave(Unreached)
                  case NotReceived => WantSave(Unvisited)
                  case Nothing => Top
                  case Received(_) => WantSave(Visited);
        var links := if c.fetched.Received? then c.fetched.links else v.links;
        Some(Free(With(s, w, v.(pc := pc, links := links, pushed := false)), FetchLock).(fetches := s.fetches + 1))
      case InSave(l) =>
        Some(Free(With(s, w, v.(pc := if l == Visited && v.entry.depth <= 3 then WantParse else Top)), ListLock(l)))
      case NextLink =>
        Some(With(s, w, v.(pc := if v.links == [] then LeaveParse else WantList(Unreached, InParse))))
      case PushLink =>
        if v.links == [] then None
        else
          var e := Entry(v.links[0], v.entry.depth + 1);
          Some(With(s, w, v.(pc := NextLink, links := v.links[1..], pushed := true))
                 .(queue := s.queue + [e], added := s.added + [e]))
      case LeaveParse => Some(Free(With(s, w, v.(pc := Broadcast)), QueueLock))
      case Broadcast => Some(With(s.(workers := WakeAll(s.workers)), w, v.(pc := Top)))
  }

  function Perform(s: State, a: Action): Option<State> {
    if a.worker >= |s.workers| then None
    else
      match a
      case Go(w, c) => Act(s, w, c)
      case Spurious(w) =>
        if s.workers[w].pc == Asleep then Some(With(s, w, s.workers[w].(pc := Awake))) else None
  }

  /** start: one entry, and n workers at the top of their loop. */
  function Start(n: nat, url: nat): State {
    var e := Entry(url, 0);
    State(seq(n, _ => Worker(Top, e, [], false)), [e], map[], 0, [e], [], 0, [])
  }

  function Execute(s: State, actions: seq<Action>): Option<State> {
    if actions == [] then Some(s)
    else
      match Execute(s, actions[..|actions|-1])
      case None => None
      case Some(t) => Perform(t, actions[|actions|-1])
  }
}
