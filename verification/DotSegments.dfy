/** How the paths of normalize_slashs compare with those of section 5.2.4 of
    RFC 3986. */
module DotSegments {
  import opened CStrings
  import opened Options
  import opened PathNormalizer
  import opened Seqs

  predicate Slash(c: char) { c == '/' }

  /** Step 2C: the last segment of the output goes, with the slash in front of
      it. */
  function CutLast(out: string): string {
    match StrRChr(out, '/')
    case None => ""
    case Some(k) => out[..k]
  }

  /** remove_dot_segments of section 5.2.4: steps 2A to 2E in their order,
      until the input buffer is empty. */
  function RemoveDots(input: string, out: string): string
    decreases |input|
  {
    if input == "" then out
    else if "../" <= input then RemoveDots(input[3..], out)
    else if "./" <= input then RemoveDots(input[2..], out)
    else if "/./" <= input then RemoveDots(input[2..], out)
    else if input == "/." then RemoveDots("/", out)
    else if "/../" <= input then RemoveDots(input[3..], CutLast(out))
    else if input == "/.." then RemoveDots("/", CutLast(out))
    else if input == "." || input == ".." then out
    else
      var k := Until(input, 1, Slash);
      RemoveDots(input[k..], out + input[..k])
  }

  /** Segments, each with its slash in front. */
  function Slashed(stack: seq<string>): string {
    if stack == [] then "" else Slashed(stack[..|stack|-1]) + ("/" + stack[|stack|-1])
  }

  /** The segments that are left when one is dropped. */
  function Popped(stack: seq<string>): seq<string> {
    if stack == [] then [] else stack[..|stack|-1]
  }

  /** What section 5.2.4 makes of the segments at the end of the input: a last
      ".." takes the segment in front of it along. */
  function LastStep(stack: seq<string>, cur: string): string {
    Slashed(if cur == ".." then Popped(stack) else stack) + "/" + if cur == "." || cur == ".." then "" else cur
  }

  ghost predicate AllClean(stack: seq<string>) {
    forall i :: 0 <= i < |stack| ==> Clean(stack[i])
  }

  /** Segments, of which some may be empty. */
  ghost predicate Segmented(stack: seq<string>) {
    forall i :: 0 <= i < |stack| ==> NoSlash(stack[i])
  }

  /** One more segment that is not the last. Section 5.2.4 keeps an empty one,
      the code does not. */
  function Put(stack: seq<string>, seg: string, keep: bool): seq<string> {
    if seg == "." || (seg == "" && !keep) then stack
    else if seg == ".." then Popped(stack)
    else stack + [seg]
  }

  /** The segments that are left of p from the k-th character on when the last
      one is come to, and the last one. */
  function StackFrom(p: string, k: nat, stack: seq<string>, keep: bool): seq<string>
    requires k <= |p|
    decreases |p| - k
  {
    var e := Until(p, k, Slash);
    if e == |p| then stack else StackFrom(p, e + 1, Put(stack, p[k..e], keep), keep)
  }

  function LastFrom(p: string, k: nat): string
    requires k <= |p|
    decreases |p| - k
  {
    var e := Until(p, k, Slash);
    if e == |p| then p[k..] else LastFrom(p, e + 1)
  }

  /** How many they are. */
  function CountPut(d: nat, seg: string, keep: bool): nat {
    if seg == "." || (seg == "" && !keep) then d
    else if seg == ".." then (if d > 0 then d - 1 else 0)
    else d + 1
  }

  function CountFrom(p: string, k: nat, d: nat, keep: bool): nat
    requires k <= |p|
    decreases |p| - k
  {
    var e := Until(p, k, Slash);
    if e == |p| then d else CountFrom(p, e + 1, CountPut(d, p[k..e], keep), keep)
  }

  lemma {:induction false} StackCounted(p: string, k: nat, stack: seq<string>, keep: bool)
    requires k <= |p|
    ensures |StackFrom(p, k, stack, keep)| == CountFrom(p, k, |stack|, keep)
    decreases |p| - k
  {
    var e := Until(p, k, Slash);
    if e < |p| {
      StackCounted(p, e + 1, Put(stack, p[k..e], keep), keep);
    }
  }

  lemma CutSlashed(stack: seq<string>)
    requires Segmented(stack)
    ensures CutLast(Slashed(stack)) == Slashed(Popped(stack))
  {
    if stack != [] {
      var front, last := Slashed(stack[..|stack|-1]), stack[|stack|-1];
      assert NoSlash(last);
      var s := front + ("/" + last);
      assert s[|front|+1..] == last && s[..|front|] == front;
      LastIs(s, '/', |front|);
    } else {
      NowhereIs("", '/');
    }
  }

  lemma {:induction false} SlashedJoin(stack: seq<string>)
    ensures "/" + Join(stack) == Slashed(stack) + "/"
    decreases |stack|
  {
    if stack != [] {
      var st, x := stack[..|stack|-1], stack[|stack|-1];
      SlashedJoin(st);
      assert "/" + (Join(st) + x + "/") == ("/" + Join(st)) + x + "/";
      assert Slashed(st) + "/" + x + "/" == Slashed(st) + ("/" + x) + "/";
    }
  }

  /** A slash alone goes to the output. */
  lemma SlashAlone(out: string)
    ensures RemoveDots("/", out) == out + "/"
  {
    assert "/"[1..] == "" && "/"[..1] == "/";
    UntilIs("/", 1, 1, Slash);
  }

  // One segment that another slash follows.

  lemma RemoveOne(rest: string, out: string)
    requires rest != "" && rest[0] == '/'
    ensures RemoveDots("/." + rest, out) == RemoveDots(rest, out)
  {
    var input := "/." + rest;
    assert "/./" <= input && input[0] == '/' && input[2..] == rest;
  }

  lemma RemoveTwo(rest: string, out: string)
    requires rest != "" && rest[0] == '/'
    ensures RemoveDots("/.." + rest, out) == RemoveDots(rest, CutLast(out))
  {
    hide CutLast;
    var input := "/.." + rest;
    assert "/../" <= input && input[0] == '/' && input[2] == '.' && input[3..] == rest;
  }

  lemma RemoveOther(seg: string, rest: string, out: string)
    requires NoSlash(seg) && seg != "." && seg != ".." && rest != "" && rest[0] == '/'
    ensures RemoveDots("/" + seg + rest, out) == RemoveDots(rest, out + ("/" + seg))
  {
    hide CutLast, Until;
    var input := "/" + seg + rest;
    NoDots(seg, rest);
    FirstSegment(seg, rest);
    assert input[..1+|seg|] == "/" + seg && input[1+|seg|..] == rest;
  }

  lemma FirstSegment(seg: string, rest: string)
    requires NoSlash(seg) && rest != "" && rest[0] == '/'
    ensures Until("/" + seg + rest, 1, Slash) == 1 + |seg|
  {
    var input := "/" + seg + rest;
    assert forall k :: 1 <= k < 1 + |seg| ==> input[k] == seg[k-1];
    assert input[1+|seg|] == '/';
    UntilIs(input, 1, 1 + |seg|, Slash);
  }

  lemma RemoveInner(stack: seq<string>, seg: string, rest: string)
    requires Segmented(stack) && NoSlash(seg) && rest != "" && rest[0] == '/'
    ensures RemoveDots("/" + seg + rest, Slashed(stack)) == RemoveDots(rest, Slashed(Put(stack, seg, true)))
  {
    hide CutLast, Slashed, RemoveDots, Segmented, NoSlash;
    if seg == "." {
      assert "/" + "." + rest == "/." + rest;
      RemoveOne(rest, Slashed(stack));
    } else if seg == ".." {
      assert "/" + ".." + rest == "/.." + rest;
      RemoveTwo(rest, Slashed(stack));
      CutSlashed(stack);
    } else {
      RemoveOther(seg, rest, Slashed(stack));
      SlashedMore(stack, seg);
    }
  }

  lemma SlashedMore(stack: seq<string>, seg: string)
    ensures Slashed(stack + [seg]) == Slashed(stack) + ("/" + seg)
  {
    assert (stack + [seg])[..|stack|] == stack;
  }

  /** No step but 2E applies to another segment. */
  lemma NoDots(seg: string, rest: string)
    requires NoSlash(seg) && seg != "." && seg != ".." && (rest != "" ==> rest[0] == '/')
    ensures var input := "/" + seg + rest;
            && !("/./" <= input) && !("/../" <= input)
            && input != "/." && input != "/.." && input != "." && input != ".."
            && !("../" <= input) && !("./" <= input)
  {
    var input := "/" + seg + rest;
    assert forall k :: 0 <= k < |seg| ==> input[k+1] == seg[k];
    assert rest != "" ==> input[1+|seg|] == '/';
    assert |seg| == 1 ==> seg == [seg[0]];
    assert |seg| == 2 ==> seg == [seg[0], seg[1]];
    Beginnings(input);
  }

  /** How an input that begins with a slash can begin. */
  lemma Beginnings(input: string)
    requires input != "" && input[0] == '/'
    ensures !("../" <= input) && !("./" <= input) && input != "." && input != ".."
    ensures "/./" <= input <==> |input| >= 3 && input[1] == '.' && input[2] == '/'
    ensures "/../" <= input <==> |input| >= 4 && input[1] == '.' && input[2] == '.' && input[3] == '/'
    ensures input == "/." <==> |input| == 2 && input[1] == '.'
    ensures input == "/.." <==> |input| == 3 && input[1] == '.' && input[2] == '.'
  {
    assert |input| >= 3 ==> input[..3] == [input[0], input[1], input[2]];
    assert |input| >= 4 ==> input[..4] == [input[0], input[1], input[2], input[3]];
  }

  /** The last segment. */
  lemma RemoveLast(stack: seq<string>, seg: string)
    requires Segmented(stack) && NoSlash(seg)
    ensures RemoveDots("/" + seg, Slashed(stack)) == LastStep(stack, seg)
  {
    hide CutLast, Slashed;
    var input, out := "/" + seg, Slashed(stack);
    assert out + "/" + "" == out + "/";
    SlashAlone(out);
    if seg == "" {
      assert input == "/";
    } else if seg == "." {
      assert input == "/.";
      Beginnings(input);
    } else if seg == ".." {
      assert input == "/..";
      Beginnings(input);
      CutSlashed(stack);
      SlashAlone(Slashed(Popped(stack)));
    } else {
      assert "/" + seg + "" == input;
      NoDots(seg, "");
      UntilIs(input, 1, |input|, Slash);
      assert input[|input|..] == "" && input[..|input|] == input;
      Regroup(out, "/", seg);
    }
  }

  /** The segment behind the slash in front of the k-th character. */
  lemma SegmentIs(p: string, k: nat) returns (e: nat, seg: string)
    requires 0 < k <= |p| && p[k-1] == '/'
    ensures k <= e <= |p| && seg == p[k..e] && NoSlash(seg) && p[k-1..] == "/" + seg + p[e..]
    ensures e == Until(p, k, Slash) && (e < |p| ==> p[e] == '/') && p[..k] + seg == p[..e]
  {
    e := Until(p, k, Slash);
    seg := p[k..e];
  }

  /** From the slash in front of the k-th character on, section 5.2.4 keeps the
      segments as StackFrom says. */
  lemma {:induction false} RemoveFrom(p: string, k: nat, stack: seq<string>)
    requires 0 < k <= |p| && p[k-1] == '/' && Segmented(stack)
    ensures Segmented(StackFrom(p, k, stack, true))
    ensures RemoveDots(p[k-1..], Slashed(stack)) == LastStep(StackFrom(p, k, stack, true), LastFrom(p, k))
    decreases |p| - k
  {
    hide RemoveDots, Slashed, LastStep, Segmented, NoSlash, Put, Until;
    var e, seg := SegmentIs(p, k);
    if e == |p| {
      assert p[k-1..] == "/" + seg && p[k..] == seg;
      RemoveLast(stack, seg);
    } else {
      RemoveInner(stack, seg, p[e..]);
      PutSegmented(stack, seg);
      RemoveFrom(p, e + 1, Put(stack, seg, true));
    }
  }

  lemma PutSegmented(stack: seq<string>, seg: string)
    requires Segmented(stack) && NoSlash(seg)
    ensures Segmented(Put(stack, seg, true))
  {
  }

  /** And so does the code, without the empty ones. */
  lemma {:induction false} ReadFrom(p: string, k: nat, stack: seq<string>)
    requires 0 < k <= |p| && p[k-1] == '/' && ReadAll(p[..k]) == Rooted("", stack, "")
    ensures ReadAll(p) == Rooted("", StackFrom(p, k, stack, false), LastFrom(p, k))
    decreases |p| - k
  {
    hide ReadAll, NoSlash, Until, Put, Close;
    var e, seg := SegmentIs(p, k);
    ReadAppend(p[..k], seg);
    assert "" + seg == seg;
    if e == |p| {
      assert p[..e] == p && p[k..] == seg;
    } else {
      ReadNext(p, e);
      PutIsClose(stack, seg);
      ReadFrom(p, e + 1, Put(stack, seg, false));
    }
  }

  lemma PutIsClose(stack: seq<string>, seg: string)
    ensures Put(stack, seg, false) == Close(stack, seg)
  {
  }

  // ----- what the code drops ----------------------------------------------

  /** a is what is left of b when some segments are taken out. */
  ghost predicate Within(a: seq<string>, b: seq<string>) {
    || a == []
    || (b != [] && ((a[|a|-1] == b[|b|-1] && Within(Popped(a), Popped(b))) || Within(a, Popped(b))))
  }

  lemma WithinNone()
    ensures Within([], [])
  {
  }

  lemma {:induction false} WithinPopped(a: seq<string>, b: seq<string>)
    requires Within(a, b)
    ensures Within(Popped(a), b) && Within(Popped(a), Popped(b))
    decreases |b|
  {
    if a != [] {
      if Within(a, Popped(b)) {
        WithinPopped(a, Popped(b));
      } else {
        WithinMore(Popped(a), b);
      }
    }
  }

  lemma WithinMore(a: seq<string>, b: seq<string>)
    requires b != [] && Within(a, Popped(b))
    ensures Within(a, b)
  {
  }

  /** Nothing has been taken out exactly if the lengths are the same. */
  lemma {:induction false} WithinLength(a: seq<string>, b: seq<string>)
    requires Within(a, b)
    ensures |a| <= |b| && (|a| == |b| ==> a == b)
    decreases |b|
  {
    if a != [] {
      if Within(a, Popped(b)) {
        WithinLength(a, Popped(b));
      } else {
        WithinLength(Popped(a), Popped(b));
        assert a == Popped(a) + [a[|a|-1]] && b == Popped(b) + [b[|b|-1]];
      }
    }
  }

  lemma WithinBoth(a: seq<string>, b: seq<string>, a0: seq<string>, b0: seq<string>)
    requires a != [] && b != [] && a[|a|-1] == b[|b|-1] && Popped(a) == a0 && Popped(b) == b0 && Within(a0, b0)
    ensures Within(a, b)
  {
  }

  lemma PutPopped(stack: seq<string>, seg: string)
    ensures Popped(stack + [seg]) == stack
  {
  }

  lemma WithinPut(a: seq<string>, b: seq<string>, seg: string)
    requires Within(a, b)
    ensures Within(Put(a, seg, false), Put(b, seg, true))
  {
    hide Within, Popped;
    PutPopped(a, seg);
    PutPopped(b, seg);
    if seg == ".." {
      WithinPopped(a, b);
    } else if seg == "" {
      WithinMore(a, b + [seg]);
    } else if seg != "." {
      WithinBoth(a + [seg], b + [seg], a, b);
    }
  }

  lemma {:induction false} StacksWithin(p: string, k: nat, a: seq<string>, b: seq<string>)
    requires k <= |p| && Within(a, b)
    ensures Within(StackFrom(p, k, a, false), StackFrom(p, k, b, true))
    decreases |p| - k
  {
    hide Put, Until, Within;
    var e := Until(p, k, Slash);
    if e < |p| {
      WithinPut(a, b, p[k..e]);
      StacksWithin(p, e + 1, Put(a, p[k..e], false), Put(b, p[k..e], true));
    }
  }

  lemma NotEmpty(p: string, k: nat, e: nat)
    requires 0 < k <= e < |p| && p[k-1] == '/' && p[e] == '/' && !PairAt(p, '/', '/', k - 1)
    ensures p[k..e] != ""
  {
  }

  lemma PutSame(stack: seq<string>, seg: string)
    requires seg != ""
    ensures Put(stack, seg, false) == Put(stack, seg, true)
  {
  }

  /** Without empty segments nothing is dropped. */
  lemma {:induction false} StacksSame(p: string, k: nat, stack: seq<string>)
    requires 0 < k <= |p| && p[k-1] == '/' && forall i :: !PairAt(p, '/', '/', i)
    ensures StackFrom(p, k, stack, false) == StackFrom(p, k, stack, true)
    decreases |p| - k
  {
    hide Until, PairAt, NoSlash, Put;
    var e, seg := SegmentIs(p, k);
    if e < |p| {
      NotEmpty(p, k, e);
      PutSame(stack, seg);
      StacksSame(p, e + 1, Put(stack, seg, true));
    }
  }

  lemma {:induction false} SlashedTells(a: seq<string>, b: seq<string>)
    requires Segmented(a) && Segmented(b) && Slashed(a) == Slashed(b)
    ensures a == b
    decreases |a|
  {
    if a != [] && b != [] {
      CutSlashed(a);
      CutSlashed(b);
      SlashedTells(Popped(a), Popped(b));
      var x, y := a[|a|-1], b[|b|-1];
      var s := Slashed(Popped(a));
      assert (s + ("/" + x))[|s|+1..] == x && (s + ("/" + y))[|s|+1..] == y;
      assert a == Popped(a) + [x] && b == Popped(b) + [y];
    }
  }

  predicate Absolute(p: string) {
    p != "" && p[0] == '/' && '?' !in p && '#' !in p
  }

  /** The segments that the code and section 5.2.4 are left with. */
  function CodeStack(p: string): seq<string>
    requires p != ""
  {
    StackFrom(p, 1, [], false)
  }

  function StandardStack(p: string): seq<string>
    requires p != ""
  {
    var stack := StackFrom(p, 1, [], true);
    if LastFrom(p, 1) == ".." then Popped(stack) else stack
  }

  /** What both make of an absolute path: they agree exactly if they are left
      with the same segments. Unless the path ends in "..", these need only be
      counted. */
  lemma AgreesAlways(p: string)
    requires Absolute(p)
    ensures Normalized(p) == RemoveDots(p, "") <==> CodeStack(p) == StandardStack(p)
    ensures LastFrom(p, 1) != ".." ==>
              (Normalized(p) == RemoveDots(p, "") <==> CountFrom(p, 1, 0, false) == CountFrom(p, 1, 0, true))
  {
    hide ReadAll, RemoveDots, Slashed, Normalized, NoSlash, StackFrom, LastFrom, CountFrom, Within, Segmented;
    BothPaths(p);
    SegmentedBoth(p);
    var tail := "/" + if LastFrom(p, 1) == "." || LastFrom(p, 1) == ".." then "" else LastFrom(p, 1);
    SameFront(Slashed(CodeStack(p)), Slashed(StandardStack(p)), tail);
    if Slashed(CodeStack(p)) == Slashed(StandardStack(p)) {
      SlashedTells(CodeStack(p), StandardStack(p));
    }
    WithinNone();
    StacksWithin(p, 1, [], []);
    WithinLength(StackFrom(p, 1, [], false), StackFrom(p, 1, [], true));
    StackCounted(p, 1, [], false);
    StackCounted(p, 1, [], true);
  }

  lemma SameFront(a: string, b: string, tail: string)
    ensures a + tail == b + tail <==> a == b
  {
    if a + tail == b + tail {
      assert |a| == |b| && (a + tail)[..|a|] == a && (b + tail)[..|b|] == b;
    }
  }

  lemma SegmentedBoth(p: string)
    requires Absolute(p)
    ensures Segmented(CodeStack(p)) && Segmented(StandardStack(p)) && AllClean(CodeStack(p))
  {
    hide ReadAll, RemoveDots, Slashed, StackFrom, LastFrom;
    AtStart(p);
    ReadFrom(p, 1, []);
    RemoveFrom(p, 1, []);
    ReadSound(p);
  }

  lemma AtStart(p: string)
    requires Absolute(p)
    ensures ReadAll(p[..1]) == Rooted("", [], "") && p[0] == '/' && p[0..] == p && Slashed([]) == ""
  {
    hide ReadAll;
    ReadBase("");
    assert p[..1] == "" + ['/'];
    ReadOne("", '/');
  }

  lemma BothPaths(p: string)
    requires Absolute(p)
    ensures ReadAll(p) == Rooted("", CodeStack(p), LastFrom(p, 1))
    ensures var tail := "/" + if LastFrom(p, 1) == "." || LastFrom(p, 1) == ".." then "" else LastFrom(p, 1);
            Normalized(p) == Slashed(CodeStack(p)) + tail && RemoveDots(p, "") == Slashed(StandardStack(p)) + tail
  {
    hide ReadAll, RemoveDots, Slashed, Join, Normalized, StackFrom, LastFrom;
    AtStart(p);
    ReadFrom(p, 1, []);
    RemoveFrom(p, 1, []);
    var last := LastFrom(p, 1);
    NormalizedIs(p, CodeStack(p), last);
    SlashedJoin(CodeStack(p));
    Regroup(Slashed(CodeStack(p)), "/", if last == "." || last == ".." then "" else last);
    Regroup(Slashed(StandardStack(p)), "/", if last == "." || last == ".." then "" else last);
  }

  /** Where section 5.2.4 is left with an empty segment, the two differ. */
  lemma EmptyLeftDiffers(p: string)
    requires Absolute(p) && "" in StandardStack(p)
    ensures Normalized(p) != RemoveDots(p, "")
  {
    hide ReadAll, RemoveDots, Normalized, StackFrom, LastFrom;
    AgreesAlways(p);
    SegmentedBoth(p);
    assert forall x :: x in CodeStack(p) ==> Clean(x);
  }

  /** For an absolute path without an empty segment: they agree exactly if the
      path does not end in "..", or no segment is left in front of it that it
      could take along. */
  lemma AgreesExactly(p: string)
    requires Absolute(p) && forall i :: !PairAt(p, '/', '/', i)
    ensures ReadAll(p).Rooted?
    ensures Normalized(p) == RemoveDots(p, "") <==> !(ReadAll(p).cur == ".." && ReadAll(p).stack != [])
  {
    hide ReadAll, RemoveDots, Normalized, StackFrom, LastFrom, CountFrom, PairAt;
    BothPaths(p);
    AgreesAlways(p);
    StacksSame(p, 1, []);
  }

  lemma NormalizedIs(p: string, stack: seq<string>, cur: string)
    requires Absolute(p) && ReadAll(p) == Rooted("", stack, cur)
    ensures Normalized(p) == "/" + Join(stack) + if cur == "." || cur == ".." then "" else cur
  {
    hide ReadAll, Join;
    PathEndIs(p, |p|);
    assert p[..|p|] == p && p[|p|..] == "" && "" + "/" + Join(stack) == "/" + Join(stack);
  }

  lemma ReadSegments(stack: seq<string>, text: string)
    requires AllClean(stack) && Join(stack) == text
    ensures ReadAll("/" + text) == Rooted("", stack, "")
  {
    hide ReadAll, Join;
    ReadJoin("", stack);
    assert "" + "/" + text == "/" + text;
  }

  lemma JoinAB()
    ensures Join(["a"]) == "a/" && Join(["a", "b"]) == "a/b/"
  {
    assert ["a", "b"][..1] == ["a"] && ["a"][..0] == [];
  }

  /** A path on which the last ".." makes the difference. */
  lemma LastDotsDiffer()
    ensures Normalized("/a/b/..") == "/a/b/" && RemoveDots("/a/b/..", "") == "/a/"
  {
    hide RemoveDots, ReadAll, Join, Normalized;
    JoinAB();
    assert Clean("a") && Clean("b");
    ReadSegments(["a", "b"], "a/b/");
    assert "/" + "a/b/" == "/a/b/" && "/a/b/" + ".." == "/a/b/.." && "" + ".." == "..";
    ReadAppend("/a/b/", "..");
    NormalizedIs("/a/b/..", ["a", "b"], "..");
    LastDotsRemoved();
  }

  lemma SegmentedAB()
    ensures Segmented([]) && Segmented(["a"]) && Segmented(["a", "b"])
    ensures NoSlash("a") && NoSlash("b") && NoSlash("..")
  {
  }

  lemma PutAB()
    ensures Put([], "a", true) == ["a"] && Put(["a"], "b", true) == ["a", "b"]
    ensures Popped(["a", "b"]) == ["a"] && Slashed([]) == "" && Slashed(["a"]) == "/a"
  {
    assert ["a"][..0] == [] && ["a", "b"][..1] == ["a"];
  }

  lemma LastDotsRemoved()
    ensures RemoveDots("/a/b/..", "") == "/a/"
  {
    hide RemoveDots, Slashed, Put, Popped, Segmented, NoSlash;
    SegmentedAB();
    PutAB();
    assert "/" + "a" + "/b/.." == "/a/b/.." && "/" + "b" + "/.." == "/b/.." && "/" + ".." == "/..";
    RemoveInner([], "a", "/b/..");
    RemoveInner(["a"], "b", "/..");
    RemoveLast(["a", "b"], "..");
  }

  /** An empty segment is dropped as well; section 5.2.4 keeps it. */
  lemma EmptySegmentDiffers()
    ensures Normalized("/a//b") == "/a/b" && RemoveDots("/a//b", "") == "/a//b"
  {
    hide RemoveDots, ReadAll, Join, Normalized;
    JoinAB();
    assert Clean("a");
    ReadSegments(["a"], "a/");
    assert "/" + "a/" == "/a/" && "/a/" + ['/'] == "/a//" && "/a//" + "b" == "/a//b" && "" + "b" == "b";
    ReadOne("/a/", '/');
    ReadAppend("/a//", "b");
    NormalizedIs("/a//b", ["a"], "b");
    EmptySegmentKept();
  }

  lemma EmptySegmentKept()
    ensures RemoveDots("/a//b", "") == "/a//b"
  {
    var p := "/a//b";
    UntilIs(p, 1, 2, Slash);
    assert p[2..] == "//b" && p[..2] == "/a";
    UntilIs("//b", 1, 1, Slash);
    assert "//b"[1..] == "/b" && "//b"[..1] == "/";
    UntilIs("/b", 1, 2, Slash);
    assert "/b"[2..] == "" && "/b"[..2] == "/b";
  }

  // ----- what else a URL holds --------------------------------------------

  /** Query and fragment stay as they are. */
  lemma TailStays(p: string, t: string)
    requires Plain(p) && (t == "" || t[0] == '?' || t[0] == '#')
    ensures Normalized(p + t) == Normalized(p) + t
  {
    hide ReadAll;
    assert (p + t)[..|p|] == p && (p + t)[|p|..] == t && p[..|p|] == p && p[|p|..] == "";
    PathEndIs(p + t, |p|);
    PathEndIs(p, |p|);
  }

  lemma {:induction false} ReadBased(base: string, p: string)
    requires NoSlash(base) && p != "" && p[0] == '/'
    ensures ReadAll(p).Rooted? && ReadAll(base + p) == ReadAll(p).(base := base)
    decreases |p|
  {
    var k := |p| - 1;
    assert base + p == (base + p[..k]) + [p[k]] && p == p[..k] + [p[k]];
    if k == 0 {
      ReadBase(base);
      ReadBase("");
      assert p[..0] == "" && base + "" == base;
    } else {
      ReadBased(base, p[..k]);
    }
    ReadOne(base + p[..k], p[k]);
    ReadOne(p[..k], p[k]);
  }

  lemma PlainNormalized(p: string)
    requires Plain(p)
    ensures Normalized(p) == Finish(ReadAll(p))
  {
    hide ReadAll, Finish;
    PathEndIs(p, |p|);
    assert p[..|p|] == p && p[|p|..] == "";
  }

  lemma FinishBased(m: Segments, base: string)
    requires m.Rooted? && m.base == ""
    ensures Finish(m.(base := base)) == base + Finish(m)
  {
    hide Join;
    var j, c := Join(m.stack), if m.cur == "." || m.cur == ".." then "" else m.cur;
    assert base + "/" + j + c == base + ("" + "/" + j + c);
  }

  /** What stands in front of the first slash stays as it is. */
  lemma FrontStays(base: string, p: string)
    requires NoSlash(base) && Plain(base) && Absolute(p)
    ensures Normalized(base + p) == base + Normalized(p)
  {
    hide ReadAll, Normalized, Finish;
    ReadBased(base, p);
    BothPaths(p);
    PlainNormalized(base + p);
    PlainNormalized(p);
    FinishBased(ReadAll(p), base);
  }

  /** And so does a text without any slash. */
  lemma NoSlashStays(base: string)
    requires NoSlash(base) && Plain(base)
    ensures Normalized(base) == base
  {
    hide ReadAll;
    ReadBase(base);
    assert base[..|base|] == base && base[|base|..] == "";
    PathEndIs(base, |base|);
  }

  // ----- the examples of section 5.2.4 ------------------------------------

  lemma PutABC()
    ensures Put([], "a", true) == ["a"] && Put(["a"], "b", true) == ["a", "b"]
    ensures Put(["a", "b"], "c", true) == ["a", "b", "c"] && Put(["a", "b", "c"], ".", true) == ["a", "b", "c"]
    ensures Put(["a", "b", "c"], "..", true) == ["a", "b"] && Put(["a", "b"], "..", true) == ["a"]
  {
    assert ["a", "b", "c"][..2] == ["a", "b"] && ["a", "b"][..1] == ["a"];
  }

  lemma SegmentedABC()
    ensures Segmented([]) && Segmented(["a"]) && Segmented(["a", "b"]) && Segmented(["a", "b", "c"])
    ensures NoSlash("a") && NoSlash("b") && NoSlash("c") && NoSlash(".") && NoSlash("..") && NoSlash("g")
    ensures Slashed([]) == "" && Slashed(["a"]) == "/a"
  {
    assert ["a"][..0] == [];
  }

  lemma FirstExample()
    ensures RemoveDots("/a/b/c/./../../g", "") == "/a/g"
  {
    hide RemoveDots, Slashed, Put, Segmented, NoSlash;
    SegmentedABC();
    PutABC();
    RemoveInner([], "a", "/b/c/./../../g");
    RemoveInner(["a"], "b", "/c/./../../g");
    RemoveInner(["a", "b"], "c", "/./../../g");
    RemoveInner(["a", "b", "c"], ".", "/../../g");
    RemoveInner(["a", "b", "c"], "..", "/../g");
    RemoveInner(["a", "b"], "..", "/g");
    RemoveLast(["a"], "g");
    assert "/" + "a" + "/b/c/./../../g" == "/a/b/c/./../../g" && "/" + "b" + "/c/./../../g" == "/b/c/./../../g";
    assert "/" + "c" + "/./../../g" == "/c/./../../g" && "/" + "." + "/../../g" == "/./../../g";
    assert "/" + ".." + "/../g" == "/../../g" && "/" + ".." + "/g" == "/../g" && "/" + "g" == "/g";
  }
}
