/** libhtmlparser/utils.cc: normalize_slashs. */
module PathNormalizer {
  import opened CStrings
  import opened Chars
  import opened Options

  // ----- the segments of a path -------------------------------------------

  /** A path that has been read up to some point: what stood before the first
      slash, the segments that have been kept, and the segment that is being
      read. */
  datatype Segments = Base(base: string) | Rooted(base: string, stack: seq<string>, cur: string)

  /** A segment is over: empty ones and "." are dropped, ".." drops the segment
      before it, if there is one. */
  function Close(stack: seq<string>, seg: string): seq<string> {
    if seg == "" || seg == "." then stack
    else if seg == ".." then (if stack == [] then [] else stack[..|stack|-1])
    else stack + [seg]
  }

  function Read(m: Segments, c: char): Segments {
    match m
    case Base(base) => if c == '/' then Rooted(base, [], "") else Base(base + [c])
    case Rooted(base, stack, cur) =>
      if c == '/' then Rooted(base, Close(stack, cur), "") else Rooted(base, stack, cur + [c])
  }

  function ReadAll(s: string): Segments {
    if s == "" then Base("") else Read(ReadAll(s[..|s|-1]), s[|s|-1])
  }

  function Join(stack: seq<string>): string {
    if stack == [] then "" else Join(stack[..|stack|-1]) + stack[|stack|-1] + "/"
  }

  /** What has been written for the segments that are over. */
  function Written(m: Segments): string {
    match m
    case Base(base) => base
    case Rooted(base, stack, _) => base + "/" + Join(stack)
  }

  /** The whole path: a last segment "." or ".." is dropped. */
  function Finish(m: Segments): string {
    match m
    case Base(base) => base
    case Rooted(_, _, cur) => Written(m) + if cur == "." || cur == ".." then "" else cur
  }

  /** Where the path of a URL ends: at the first '?' or '#'. */
  function PathEnd(s: string): (r: nat)
    ensures r <= |s|
    ensures forall i :: 0 <= i < r ==> s[i] != '?' && s[i] != '#'
    ensures r < |s| ==> s[r] == '?' || s[r] == '#'
  {
    if s == "" || s[0] == '?' || s[0] == '#' then 0 else 1 + PathEnd(s[1..])
  }

  function Normalized(url: string): string {
    Finish(ReadAll(url[..PathEnd(url)])) + url[PathEnd(url)..]
  }

  // ----- facts about the segments -----------------------------------------

  predicate NoSlash(s: string) {
    '/' !in s
  }

  predicate Clean(seg: string) {
    NoSlash(seg) && seg != "" && seg != "." && seg != ".."
  }

  ghost predicate Sound(m: Segments) {
    && NoSlash(m.base)
    && (m.Rooted? ==> NoSlash(m.cur) && forall i :: 0 <= i < |m.stack| ==> Clean(m.stack[i]))
  }

  lemma {:induction false} ReadSound(s: string)
    ensures Sound(ReadAll(s))
  {
    if s != "" {
      ReadSound(s[..|s|-1]);
    }
  }

  lemma ReadNext(s: string, p: nat)
    requires p < |s|
    ensures ReadAll(s[..p+1]) == Read(ReadAll(s[..p]), s[p])
  {
    assert s[..p+1][..p] == s[..p];
  }

  /** The segment that is being read is the end of what has been read. */
  lemma {:induction false} CurIsTail(s: string)
    ensures var m := ReadAll(s);
            match m
            case Base(base) => base == s && NoSlash(s)
            case Rooted(_, _, cur) => |cur| < |s| && s[|s|-|cur|..] == cur && s[|s|-|cur|-1] == '/'
  {
    if s != "" {
      var t := s[..|s|-1];
      CurIsTail(t);
      assert s == t + [s[|s|-1]];
    }
  }

  // ----- the scanner ------------------------------------------------------

  datatype ScanState = NONE | LASTSLASH | LASTDOTSLASH | LASTDOTDOTSLASH

  /** What the scanner has written when it is in this state. */
  function Output(m: Segments, state: ScanState): string {
    Written(m) + if state == NONE && m.Rooted? then m.cur else ""
  }

  /** What the state says about the segment that is being read. */
  predicate StateFits(m: Segments, state: ScanState) {
    match state
    case NONE => m.Rooted? ==> m.cur != "" && m.cur != "." && m.cur != ".."
    case LASTSLASH => m.Rooted? && m.cur == ""
    case LASTDOTSLASH => m.Rooted? && m.cur == "."
    case LASTDOTDOTSLASH => m.Rooted? && m.cur == ".."
  }

  /** How far the scanner has to stay behind its read position. */
  function Lag(state: ScanState): nat {
    match state
    case NONE => 0
    case LASTSLASH => 0
    case LASTDOTSLASH => 1
    case LASTDOTDOTSLASH => 2
  }

  /** In front of the first "//" and "/." nothing changes. */
  lemma {:induction false} PrefixStays(s: string, p: nat)
    requires p <= |s|
    requires forall i :: i < p - 1 ==> !PairAt(s, '/', '/', i) && !PairAt(s, '/', '.', i)
    ensures s[..p] == Output(ReadAll(s[..p]), NONE)
  {
    hide ReadAll, Read, Output, PairAt;
    if p > 0 {
      PrefixStays(s, p - 1);
      ReadNext(s, p - 1);
      assert s[..p] == s[..p-1] + [s[p-1]];
      if s[p-1] == '/' && ReadAll(s[..p-1]).Rooted? {
        CurIsKept(s, p - 1);
      }
      ReadKeeps(ReadAll(s[..p-1]), s[p-1]);
    } else {
      assert s[..0] == "";
      ReadNone();
    }
  }

  lemma ReadKeeps(m: Segments, c: char)
    requires m.Rooted? && c == '/' ==> m.cur != "" && m.cur != "." && m.cur != ".."
    ensures Output(Read(m, c), NONE) == Output(m, NONE) + [c]
  {
    if m.Rooted? && c == '/' {
      JoinMore(m.stack, m.cur);
    }
  }

  lemma ReadNone()
    ensures ReadAll("") == Base("") && Output(Base(""), NONE) == ""
  {
  }

  lemma CurIsKept(s: string, p: nat)
    requires p <= |s| && ReadAll(s[..p]).Rooted?
    requires forall i :: i < p - 1 ==> !PairAt(s, '/', '/', i) && !PairAt(s, '/', '.', i)
    ensures var cur := ReadAll(s[..p]).cur;
            cur != "." && cur != ".." && (p < |s| && s[p] == '/' && !PairAt(s, '/', '/', p - 1) ==> cur != "")
  {
    hide ReadAll;
    CurIsTail(s[..p]);
    var cur := ReadAll(s[..p]).cur;
    var k := p - |cur|;
    assert s[..p][k-1] == s[k-1];
    assert k < p ==> !PairAt(s, '/', '/', k - 1) && !PairAt(s, '/', '.', k - 1);
    if |cur| > 0 {
      assert cur[0] == s[..p][k] == s[k];
    }
  }

  lemma JoinMore(stack: seq<string>, seg: string)
    ensures Join(stack + [seg]) == Join(stack) + seg + "/"
  {
    assert (stack + [seg])[..|stack|] == stack;
  }

  /** One step of the scanner on values. */
  function NextState(state: ScanState, c: char): ScanState {
    match state
    case NONE => if c == '/' then LASTSLASH else NONE
    case LASTSLASH => if c == '/' then LASTSLASH else if c == '.' then LASTDOTSLASH else NONE
    case LASTDOTSLASH => if c == '/' then LASTSLASH else if c == '.' then LASTDOTDOTSLASH else NONE
    case LASTDOTDOTSLASH => if c == '/' then LASTSLASH else NONE
  }

  lemma StepFits(m: Segments, state: ScanState, c: char)
    requires Sound(m) && StateFits(m, state)
    ensures StateFits(Read(m, c), NextState(state, c))
  {
    if m.Rooted? {
      var cur := m.cur + [c];
      assert |cur| == |m.cur| + 1 && cur[|m.cur|] == c && cur[..|m.cur|] == m.cur;
      assert cur == "." ==> c == '.';
      assert cur == ".." ==> c == '.' && cur[..1] == ".";
    }
  }

  /** What a step adds to the output, but for a segment that is dropped. */
  lemma StepOutput(m: Segments, state: ScanState, c: char)
    requires Sound(m) && StateFits(m, state) && !(state == LASTDOTDOTSLASH && c == '/')
    ensures Output(Read(m, c), NextState(state, c)) == Output(m, state) +
              match state
              case NONE => [c]
              case LASTSLASH => if c == '/' || c == '.' then "" else [c]
              case LASTDOTSLASH => if c == '/' || c == '.' then "" else ['.', c]
              case LASTDOTDOTSLASH => ['.', '.', c]
  {
    hide Join, Sound;
    match m
    case Base(base) =>
      JoinNil(base);
    case Rooted(base, stack, cur) =>
      if c == '/' {
        CloseWrites(base, stack, cur);
      } else {
        CurWrites(base + "/" + Join(stack), cur, c);
      }
  }

  lemma JoinNil(base: string)
    ensures base + "/" + Join([]) == base + "" + ['/']
  {
  }

  lemma CloseWrites(base: string, stack: seq<string>, cur: string)
    requires cur != ".."
    ensures base + "/" + Join(Close(stack, cur))
            == base + "/" + Join(stack) + if cur == "" || cur == "." then "" else cur + "/"
  {
    JoinMore(stack, cur);
  }

  lemma CurWrites(written: string, cur: string, c: char)
    ensures written + (cur + [c]) == written + cur + [c]
    ensures cur == "" ==> written + (cur + [c]) == written + "" + [c]
    ensures cur == "." ==> written + (cur + [c]) == written + "" + ['.', c]
    ensures cur == ".." ==> written + (cur + [c]) == written + "" + ['.', '.', c]
  {
  }

  /** "/../" takes the output back to behind the slash before the last one, if
      there is one. */
  lemma StepBack(m: Segments, c: nat, out: string)
    requires Sound(m) && m.Rooted? && m.cur == ".." && out == Written(m)
    ensures var back := Written(Read(m, '/'));
            && out != "" && |back| <= |out| && out[..|back|] == back && |back| > 0 && back[|back|-1] == '/'
            && (m.stack == [] ==> back == out && forall i :: 0 <= i < |out| - 1 ==> out[i] != '/')
            && (m.stack != [] ==> |back| < |out| && forall i :: |back| <= i < |out| - 1 ==> out[i] != '/')
  {
    if m.stack != [] {
      var st, x := m.stack[..|m.stack|-1], m.stack[|m.stack|-1];
      assert Clean(x);
      assert out == (m.base + "/" + Join(st)) + (x + "/");
      JoinEnds(st);
    }
  }

  lemma JoinEnds(stack: seq<string>)
    ensures stack != [] ==> Join(stack) != "" && Join(stack)[|Join(stack)|-1] == '/'
  {
  }

  /** The loop over the path, with count behind ptr all the way. */
  method Scan(url: string, ret: array<char>, problem: nat, questionDash: nat) returns (ptr: nat, count: nat)
    requires NUL !in url && ret.Length == |url| && problem < questionDash <= |url|
    requires ret[..problem] == Output(ReadAll(url[..problem]), NONE) && StateFits(ReadAll(url[..problem]), NONE)
    modifies ret
    ensures ptr == questionDash && count <= ptr && ret[..count] == Finish(ReadAll(url[..questionDash]))
  {
    hide ReadAll, Read, Output, Written, Finish, StateFits;
    var state := NONE;
    ptr, count := problem, problem;
    while At(url, ptr) != NUL && ptr < questionDash
      invariant problem <= ptr <= questionDash && count + Lag(state) <= ptr
      invariant ret[..count] == Output(ReadAll(url[..ptr]), state) && StateFits(ReadAll(url[..ptr]), state)
      decreases questionDash - ptr
    {
      ghost var m := ReadAll(url[..ptr]);
      var c := url[ptr];
      ReadSound(url[..ptr]);
      ReadNext(url, ptr);
      StepFits(m, state, c);
      if state == LASTDOTDOTSLASH && c == '/' {
        count := PopSegment(ret, count, m);
        state := LASTSLASH;
      } else {
        StepOutput(m, state, c);
        count, state := WriteNext(ret, count, state, c);
      }
      ptr := ptr + 1;
    }
    FinishIs(ReadAll(url[..ptr]), state);
  }

  /** The cases of the switch that only write. */
  method WriteNext(ret: array<char>, count: nat, state: ScanState, c: char) returns (after: nat, next: ScanState)
    requires count + Lag(state) < ret.Length && !(state == LASTDOTDOTSLASH && c == '/')
    modifies ret
    ensures next == NextState(state, c) && after + Lag(next) <= count + Lag(state) + 1
    ensures ret[..after] == old(ret[..count]) +
              match state
              case NONE => [c]
              case LASTSLASH => if c == '/' || c == '.' then "" else [c]
              case LASTDOTSLASH => if c == '/' || c == '.' then "" else ['.', c]
              case LASTDOTDOTSLASH => ['.', '.', c]
  {
    after := count;
    match state
    case LASTSLASH =>
      if c == '/' {
        next := LASTSLASH;
      } else if c == '.' {
        next := LASTDOTSLASH;
      } else {
        ret[after] := c;
        after := after + 1;
        next := NONE;
      }
    case LASTDOTSLASH =>
      if c == '/' {
        next := LASTSLASH;
      } else if c == '.' {
        next := LASTDOTDOTSLASH;
      } else {
        ret[after] := '.';
        ret[after+1] := c;
        after := after + 2;
        next := NONE;
      }
    case LASTDOTDOTSLASH =>
      ret[after] := '.';
      ret[after+1] := '.';
      ret[after+2] := c;
      after := after + 3;
      next := NONE;
    case NONE =>
      ret[after] := c;
      after := after + 1;
      next := if c == '/' then LASTSLASH else NONE;
  }

  /** The case of "/../": count goes back to behind the slash before the last
      one. */
  method PopSegment(ret: array<char>, count: nat, ghost m: Segments) returns (after: nat)
    requires count <= ret.Length && Sound(m) && StateFits(m, LASTDOTDOTSLASH)
             && ret[..count] == Output(m, LASTDOTDOTSLASH)
    ensures after <= count && ret[..after] == Output(Read(m, '/'), LASTSLASH)
  {
    hide Written, Read, Sound;
    StepBack(m, count, ret[..count]);
    ghost var back := Written(Read(m, '/'));
    var lastSlash: int := count - 2;
    while lastSlash >= 0 && ret[lastSlash] != '/'
      invariant -1 <= lastSlash <= count - 2
      invariant m.stack != [] ==> |back| - 1 <= lastSlash
    {
      assert ret[..count][lastSlash] == ret[lastSlash];
      lastSlash := lastSlash - 1;
    }
    assert lastSlash >= 0 ==> ret[..count][lastSlash] == ret[lastSlash];
    after := count;
    if lastSlash >= 0 {
      after := lastSlash + 1;
    }
    assert ret[..after] == ret[..count][..after];
  }

  lemma FinishIs(m: Segments, state: ScanState)
    requires StateFits(m, state)
    ensures Output(m, state) == Finish(m)
  {
  }

  lemma PathEndIs(s: string, q: nat)
    requires q <= |s| && (forall i :: 0 <= i < q ==> s[i] != '?' && s[i] != '#')
    requires q < |s| ==> s[q] == '?' || s[q] == '#'
    ensures PathEnd(s) == q
  {
  }

  /** Where there is no problem in the path, the URL is normal. */
  lemma NoProblem(url: string)
    requires var q := PathEnd(url); forall i :: i < q - 1 ==> !PairAt(url, '/', '/', i) && !PairAt(url, '/', '.', i)
    ensures Normalized(url) == url
  {
    hide ReadAll, PathEnd, PairAt, Join;
    var q := PathEnd(url);
    PrefixStays(url, q);
    if ReadAll(url[..q]).Rooted? {
      CurIsKept(url, q);
    }
    assert url == url[..q] + url[q..];
  }

  method NormalizeSlashs(url: string) returns (result: string)
    requires NUL !in url
    ensures result == Normalized(url)
  {
    var question := StrChr(url, '?');
    var dash := StrChr(url, '#');
    var questionDash := |url|;
    if question.Some? && (dash.None? || question.value < dash.value) {
      questionDash := question.value;
    } else if dash.Some? {
      questionDash := dash.value;
    }
    FirstOfBoth(url, question, dash, questionDash);
    var problem1 := StrPair(url, '/', '/');
    var problem2 := StrPair(url, '/', '.');
    var problem := if problem1.Some? && (problem2.None? || problem1.value < problem2.value) then problem1 else problem2;
    if problem.Some? && problem.value < questionDash {
      var start := problem.value;
      PrefixStays(url, start);
      if ReadAll(url[..start]).Rooted? {
        CurIsKept(url, start);
      }
      result := Rewrite(url, start, questionDash);
    } else {
      NoProblem(url);
      result := url;
    }
  }

  lemma FirstOfBoth(url: string, question: Option<nat>, dash: Option<nat>, q: nat)
    requires question == StrChr(url, '?') && dash == StrChr(url, '#')
    requires q == if question.Some? && (dash.None? || question.value < dash.value) then question.value
                  else if dash.Some? then dash.value else |url|
    ensures PathEnd(url) == q
  {
    forall i | 0 <= i < q
      ensures url[i] != '?' && url[i] != '#'
    {
      assert question.Some? && i < question.value ==> url[i] == url[..question.value][i];
      assert dash.Some? && i < dash.value ==> url[i] == url[..dash.value][i];
    }
    PathEndIs(url, q);
  }

  /** The part that rewrites the copy. */
  method Rewrite(url: string, problem: nat, questionDash: nat) returns (result: string)
    requires NUL !in url && problem < questionDash <= |url|
    requires url[..problem] == Output(ReadAll(url[..problem]), NONE) && StateFits(ReadAll(url[..problem]), NONE)
    ensures result == Finish(ReadAll(url[..questionDash])) + url[questionDash..]
  {
    hide ReadAll, Finish, StateFits, Output;
    var ret := new char[|url|](i requires 0 <= i < |url| => url[i]);
    assert ret[..problem] == url[..problem];
    var ptr, count := Scan(url, ret, problem, questionDash);
    ghost var path := ret[..count];
    assert url[questionDash..ptr] == "";
    while At(url, ptr) != NUL
      invariant questionDash <= ptr <= |url| && count <= ptr
      invariant ret[..count] == path + url[questionDash..ptr]
      decreases |url| - ptr
    {
      ret[count] := url[ptr];
      count := count + 1;
      ptr := ptr + 1;
    }
    result := ret[..count];
  }

  // ----- normal is normal -------------------------------------------------

  lemma {:induction false} ReadAppend(s: string, t: string)
    requires NoSlash(t) && ReadAll(s).Rooted?
    ensures ReadAll(s + t) == ReadAll(s).(cur := ReadAll(s).cur + t)
    decreases |t|
  {
    if t == "" {
      assert s + t == s;
    } else {
      assert (s + t)[..|s + t|-1] == s + t[..|t|-1];
      ReadAppend(s, t[..|t|-1]);
    }
  }

  lemma {:induction false} ReadBase(s: string)
    requires NoSlash(s)
    ensures ReadAll(s) == Base(s)
  {
    if s != "" {
      ReadBase(s[..|s|-1]);
    }
  }

  lemma ReadOne(s: string, c: char)
    ensures ReadAll(s + [c]) == Read(ReadAll(s), c)
  {
    assert (s + [c])[..|s|] == s;
  }

  lemma {:induction false} ReadJoin(base: string, stack: seq<string>)
    requires NoSlash(base) && forall i :: 0 <= i < |stack| ==> Clean(stack[i])
    ensures ReadAll(base + "/" + Join(stack)) == Rooted(base, stack, "")
    decreases |stack|
  {
    hide ReadAll, Read, Join;
    if stack == [] {
      ReadBase(base);
      ReadOne(base, '/');
      JoinNone(base);
    } else {
      var st, x := stack[..|stack|-1], stack[|stack|-1];
      ReadJoin(base, st);
      assert Clean(x) && stack == st + [x];
      ReadAppend(base + "/" + Join(st), x);
      ReadOne(base + "/" + Join(st) + x, '/');
      JoinOneMore(base, st, x);
    }
  }

  lemma JoinNone(base: string)
    ensures base + "/" + Join([]) == base + ['/'] && Read(Base(base), '/') == Rooted(base, [], "")
  {
  }

  lemma JoinOneMore(base: string, st: seq<string>, x: string)
    requires Clean(x)
    ensures base + "/" + Join(st + [x]) == base + "/" + Join(st) + x + ['/']
    ensures "" + x == x && Read(Rooted(base, st, x), '/') == Rooted(base, st + [x], "")
  {
    JoinMore(st, x);
  }

  /** Reading a normal path again gives the same segments. */
  lemma ReadFinish(m: Segments)
    requires Sound(m)
    ensures Finish(ReadAll(Finish(m))) == Finish(m)
  {
    hide ReadAll, Join;
    if m.Base? {
      ReadBase(m.base);
    } else {
      var last := if m.cur == "." || m.cur == ".." then "" else m.cur;
      ReadJoin(m.base, m.stack);
      ReadAppend(Written(m), last);
      assert "" + last == last;
    }
  }

  predicate Plain(s: string) {
    '?' !in s && '#' !in s
  }

  lemma {:induction false} FinishPlain(s: string)
    requires Plain(s)
    ensures Plain(Written(ReadAll(s))) && Plain(Finish(ReadAll(s)))
    ensures ReadAll(s).Rooted? ==> Plain(ReadAll(s).cur)
  {
    if s != "" {
      FinishPlain(s[..|s|-1]);
    }
  }

  /** Normalising is idempotent. */
  lemma NormalizedTwice(url: string)
    ensures Normalized(Normalized(url)) == Normalized(url)
  {
    var q := PathEnd(url);
    var m := ReadAll(url[..q]);
    var out := Finish(m);
    ReadSound(url[..q]);
    FinishPlain(url[..q]);
    PathEndIs(out + url[q..], |out|);
    assert (out + url[q..])[..|out|] == out && (out + url[q..])[|out|..] == url[q..];
    ReadFinish(m);
  }

  /** A last ".." is dropped and takes nothing with it; DotSegments compares
      that with section 5.2.4 of RFC 3986. */
  lemma LastDotsDropped(path: string)
    requires Plain(path) && ReadAll(path).Rooted? && ReadAll(path).cur == ""
    ensures Normalized(path + "..") == Normalized(path)
  {
    ReadAppend(path, "..");
    PathEndIs(path, |path|);
    PathEndIs(path + "..", |path| + 2);
    assert path[..|path|] == path && (path + "..")[..|path|+2] == path + "..";
  }
}
