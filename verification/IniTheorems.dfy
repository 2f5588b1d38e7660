/** libspider/IniFile.cpp: what is saved is read back. */
module IniTheorems {
  import opened Chars
  import opened CStrings
  import opened IniFormat
  import opened Options

  // ----- what can be saved ------------------------------------------------

  /** A section that its heading gives back. */
  predicate CleanSection(sect: string) {
    sect != "" && '\n' !in sect && NUL !in sect
  }

  /** A key that stands as it is in front of '='. */
  predicate CleanKey(key: string) {
    key != "" && '=' !in key && key[0] !in EDGES && key[|key|-1] !in BLANKS
  }

  /** A value that stands as it is behind '='. */
  predicate CleanValue(value: string) {
    value != "" && value[0] !in BLANKS && value[|value|-1] !in EDGES && CommentAt(value, 0).None?
  }

  /** A line that is not taken for the beginning of a section: a bracket is
      missing, or the first '[' stands right behind the last ']'. */
  predicate NoHeading(line: string) {
    || '[' !in line || ']' !in line
    || exists i :: 0 <= i < |line| - 1 && line[i] == ']' && line[i+1] == '[' && '[' !in line[..i] && ']' !in line[i+1..]
  }

  /** An entry that its line gives back. */
  predicate Stands(key: string, value: string) {
    CleanKey(key) && CleanValue(value) && NUL !in key + value && NoHeading(key + "=" + value)
  }

  predicate CleanEntry(mapkey: string, value: string) {
    match Find(mapkey, MIDDLE, 0)
    case None => false
    case Some(loc) =>
      var sect, key := mapkey[..loc], mapkey[loc+|MIDDLE|..];
      CleanSection(sect) && '\n' !in key + value && Stands(key, value)
  }

  ghost predicate Clean(m: Config) {
    forall k {:trigger m[k]} | k in m :: CleanEntry(k, m[k])
  }

  // ----- the parts of a map key -------------------------------------------

  lemma NoOccurrence(s: string, pat: string, k: nat, j: nat)
    requires j < |pat| && k + j < |s| && s[k+j] != pat[j]
    ensures !Occurs(s, pat, k)
  {
    if k + |pat| <= |s| {
      assert s[k..k+|pat|][j] == s[k+j];
    }
  }

  /** A section without '*' is found again, whatever follows. */
  lemma SectionFound(sect: string, rest: string)
    requires '*' !in sect
    ensures Find(sect + MIDDLE + rest, MIDDLE, 0) == Some(|sect|)
  {
    var s := sect + MIDDLE + rest;
    assert s[|sect|..|sect|+|MIDDLE|] == MIDDLE;
    assert Occurs(s, MIDDLE, |sect|);
    forall k | 0 <= k < |sect|
      ensures !Occurs(s, MIDDLE, k)
    {
      assert s[k+5] == if k + 5 < |sect| then sect[k+5] else MIDDLE[k+5-|sect|];
      NoOccurrence(s, MIDDLE, k, 5);
    }
  }

  /** Keys of different entries differ, for sections without '*'. */
  lemma MapKeyTells(sect1: string, key1: string, sect2: string, key2: string)
    requires '*' !in sect1 && '*' !in sect2 && MapKey(sect1, key1) == MapKey(sect2, key2)
    ensures sect1 == sect2 && key1 == key2
  {
    SectionFound(sect1, key1);
    SectionFound(sect2, key2);
    assert MapKey(sect1, key1)[..|sect1|] == sect1 && MapKey(sect2, key2)[..|sect2|] == sect2;
    assert MapKey(sect1, key1)[|sect1|+|MIDDLE|..] == key1 && MapKey(sect2, key2)[|sect2|+|MIDDLE|..] == key2;
  }

  function SectOf(mapkey: string): string {
    match Find(mapkey, MIDDLE, 0) case None => "" case Some(loc) => mapkey[..loc]
  }

  // ----- sections stay together -------------------------------------------

  /** What lies between two strings with the same beginning has it too. */
  lemma {:induction false} PrefixBetween(p: string, x: string, y: string, z: string)
    requires p <= x && p <= z && Less(x, y) && Less(y, z)
    ensures p <= y
    decreases |p|
  {
    if p != "" {
      assert x[0] == p[0] == z[0];
      assert y != "" && y[0] == p[0];
      assert p[1..] <= x[1..] && p[1..] <= z[1..];
      PrefixBetween(p[1..], x[1..], y[1..], z[1..]);
      assert p == [p[0]] + p[1..] && y == [y[0]] + y[1..];
    }
  }

  /** In key order, the entries of a section stand next to each other, whatever
      its name. */
  lemma SectionsTogether(x: string, y: string, z: string)
    requires Less(x, y) && Less(y, z) && SectOf(x) == SectOf(z)
    requires Find(x, MIDDLE, 0).Some? && Find(z, MIDDLE, 0).Some?
    ensures SectOf(y) == SectOf(x)
  {
    hide Find, Less;
    BeginsWith(x);
    BeginsWith(z);
    PrefixBetween(SectOf(x) + MIDDLE, x, y, z);
    SameSection(x, y);
  }

  /** The first MIDDLE tells the section: what begins with the section and
      MIDDLE has no earlier one. */
  lemma SameSection(x: string, y: string)
    requires Find(x, MIDDLE, 0).Some? && SectOf(x) + MIDDLE <= y
    ensures SectOf(y) == SectOf(x)
  {
    hide Find, Occurs;
    BeginsWith(x);
    var sect, p := SectOf(x), SectOf(x) + MIDDLE;
    forall k | 0 <= k < |sect|
      ensures !Occurs(y, MIDDLE, k)
    {
      OccursInBoth(x, y, p, k);
    }
    assert y[|sect|..|p|] == MIDDLE;
    OccursWhen(y, MIDDLE, |sect|);
    FirstOfIs(y, MIDDLE, 0, |sect|);
    FindIs(y, MIDDLE, 0, |sect|);
  }

  lemma OccursInBoth(x: string, y: string, p: string, k: nat)
    requires p <= x && p <= y && k + |MIDDLE| <= |p|
    ensures Occurs(x, MIDDLE, k) <==> Occurs(y, MIDDLE, k)
  {
    assert x[k..k+|MIDDLE|] == p[k..k+|MIDDLE|] == y[k..k+|MIDDLE|];
  }

  lemma BeginsWith(mapkey: string)
    requires Find(mapkey, MIDDLE, 0).Some?
    ensures SectOf(mapkey) + MIDDLE <= mapkey && Find(mapkey, MIDDLE, 0) == Some(|SectOf(mapkey)|)
    ensures var loc := Find(mapkey, MIDDLE, 0).value; mapkey == MapKey(mapkey[..loc], mapkey[loc+|MIDDLE|..])
  {
  }

  // ----- one line ---------------------------------------------------------

  lemma TrimStands(line: string)
    requires line != "" && line[0] !in EDGES && line[|line|-1] !in EDGES
    ensures Trim(line) == line
  {
  }

  lemma HeadingGives(sect: string)
    ensures SectionOf(Header(sect)) == Some(sect)
  {
    hide StrChr, StrRChr;
    var line := Header(sect);
    FirstIs(line, '[', 0);
    LastIs(line, ']', |line| - 1);
    assert line[1..|line|-1] == sect;
  }

  lemma HeaderRead(st: State, sect: string)
    requires NUL !in sect
    ensures ReadLine(st, Header(sect)) == st.(sect := sect)
  {
    hide Trim, CString, SectionOf;
    var line := Header(sect);
    assert line[0] == '[' && line[|line|-1] == ']' && NUL !in line;
    TrimStands(line);
    HeadingGives(sect);
  }

  lemma ValueStands(value: string)
    requires CleanValue(value)
    ensures Value(value) == Some(value)
  {
    hide CommentAt;
    assert FirstNotOf(value, BLANKS) == Some(0);
    assert LastNotOf(value, BLANKS) == Some(|value| - 1);
    assert value[0..|value|] == value;
  }

  lemma HeadingIs(line: string)
    ensures SectionOf(line).None? <==> NoHeading(line)
  {
    hide StrChr, StrRChr;
    var first, last := StrChr(line, '['), StrRChr(line, ']');
    if first.Some? && last.Some? {
      if first.value == last.value + 1 {
        var i := last.value;
        assert line[i] == ']' && line[i+1] == '[' && '[' !in line[..i] && ']' !in line[i+1..];
      }
      if i :| 0 <= i < |line| - 1 && line[i] == ']' && line[i+1] == '[' && '[' !in line[..i] && ']' !in line[i+1..] {
        assert line[..i+1] == line[..i] + "]";
        FirstIs(line, '[', i + 1);
        LastIs(line, ']', i);
      }
    }
  }

  /** A line is read as what stands in front of its first NUL. */
  lemma CutOnce(st: State, line: string)
    ensures ReadLine(st, line) == ReadLine(st, CString(line))
  {
    hide CString, Trim, SectionOf, Entry;
  }

  lemma EntryRead(st: State, key: string, value: string)
    requires Stands(key, value) && st.sect != ""
    ensures ReadLine(st, key + "=" + value) == st.(config := st.config[MapKey(st.sect, key) := value])
  {
    hide Trim, CString, Entry, CommentAt, SectionOf, NoHeading;
    var line := key + "=" + value;
    assert line[|line|-1] == value[|value|-1] && line[0] == key[0] && NUL !in line;
    TrimStands(line);
    HeadingIs(line);
    EntryOf(key, value);
  }

  lemma EntryOf(key: string, value: string)
    requires CleanKey(key) && CleanValue(value)
    ensures Entry(key + "=" + value) == Some((key, value))
  {
    hide StrChr, Value, CommentAt;
    var line := key + "=" + value;
    FirstIs(line, '=', |key|);
    assert line[..|key|] == key && line[|key|+1..] == value;
    ValueStands(value);
    assert FirstNotOf(key, BLANKS) == Some(0) && LastNotOf(key, BLANKS) == Some(|key| - 1);
    assert key[0..|key|] == key;
  }

  lemma TrimShortens(line: string)
    ensures |Trim(line)| <= |line|
    ensures |Trim(line)| == |line| > 0 ==> Trim(line) == line && line[0] !in EDGES && line[|line|-1] !in EDGES
  {
  }

  /** The key and the value of a line take no more room than they have. */
  lemma EntryParts(line: string)
    requires Entry(line).Some?
    ensures var (k, v) := Entry(line).value;
            && k != "" && '=' !in k && |k| + 1 + |v| <= |line|
            && (|k| + 1 + |v| == |line| ==>
                  line[..|k|] == k && line[|k|+1..] == v && Value(v) == Some(v) && k[|k|-1] !in BLANKS)
  {
    hide StrChr, Value;
    var eq := StrChr(line, '=').value;
    var s1, s2 := line[..eq], line[eq+1..];
    var first, last := FirstNotOf(s1, BLANKS).value, LastNotOf(s1, BLANKS).value;
    var k, v := s1[first..last+1], Value(s2).value;
    ValueShortens(s2);
    assert k[|k|-1] == s1[last];
    if |k| + 1 + |v| == |line| {
      assert s1[first..last+1] == s1;
    }
  }

  lemma ValueShortens(s: string)
    requires Value(s).Some?
    ensures var v := Value(s).value; |v| <= |s| && (|v| == |s| ==> v == s)
  {
    hide CommentAt;
  }

  lemma ValueClean(v: string)
    requires Value(v) == Some(v)
    ensures v != "" && v[0] !in BLANKS && v[|v|-1] !in BLANKS && CommentAt(v, 0).None?
  {
    hide Find;
    CommentBound(v);
  }

  lemma CommentBound(v: string)
    ensures CommentAt(v, 0).Some? ==> CommentAt(v, 0).value < |v|
  {
  }

  /** A line "key=value" stores this key with this value exactly if there is a
      section, and the entry stands. */
  lemma EntryExactly(sect: string, key: string, value: string)
    ensures ReadLine(State(sect, map[]), key + "=" + value) == State(sect, map[MapKey(sect, key) := value])
            <==> sect != "" && Stands(key, value)
  {
    hide Trim, CString, SectionOf, Entry, Value, CommentAt, NoHeading;
    var line := key + "=" + value;
    var st, after := State(sect, map[]), State(sect, map[MapKey(sect, key) := value]);
    if sect != "" && Stands(key, value) {
      EntryRead(st, key, value);
    }
    if ReadLine(st, line) == after {
      assert MapKey(sect, key) in after.config && st.config != after.config;
      var t := Trim(CString(line));
      var (k, v) := Entry(t).value;
      SameKey(sect, k, v, key, value);
      EntryParts(t);
      TrimShortens(CString(line));
      assert t == line;
      HeadingIs(line);
      ValueClean(value);
      assert line[0] == key[0] && line[|line|-1] == value[|value|-1];
    }
  }

  lemma SameKey(sect: string, k: string, v: string, key: string, value: string)
    requires map[MapKey(sect, k) := v] == map[MapKey(sect, key) := value]
    ensures k == key && v == value
  {
    var m, n := map[MapKey(sect, k) := v], map[MapKey(sect, key) := value];
    assert MapKey(sect, k) in n && MapKey(sect, key) in m;
    var p := |sect + MIDDLE|;
    assert MapKey(sect, k)[p..] == k && MapKey(sect, key)[p..] == key;
    assert m[MapKey(sect, k)] == v && n[MapKey(sect, key)] == value;
  }

  // ----- comments ---------------------------------------------------------

  /** A comment may begin at k. */
  ghost predicate Mark(s: string, k: int) {
    Occurs(s, "\t#", k) || Occurs(s, " #", k) || Occurs(s, "\t//", k) || Occurs(s, " //", k)
  }

  ghost predicate FirstMark(s: string, n: nat, m: nat) {
    n <= m && Mark(s, m) && forall k {:trigger Mark(s, k)} :: n <= k < m ==> !Mark(s, k)
  }

  /** c is the first occurrence of pat from n on. */
  ghost predicate FirstOf(s: string, pat: string, n: nat, c: nat) {
    n <= c && Occurs(s, pat, c) && forall k :: n <= k < c ==> !Occurs(s, pat, k)
  }

  ghost predicate NoneOf(s: string, pat: string, n: nat) {
    forall k :: n <= k ==> !Occurs(s, pat, k)
  }

  /** The place that the four searches settle on: a "#" behind a tab comes
      before one behind a space, and both before "//", wherever they stand. */
  ghost predicate Picked(s: string, n: nat, c: nat) {
    || FirstOf(s, "\t#", n, c)
    || (NoneOf(s, "\t#", n) && FirstOf(s, " #", n, c))
    || (NoneOf(s, "\t#", n) && NoneOf(s, " #", n) && FirstOf(s, "\t//", n, c))
    || (NoneOf(s, "\t#", n) && NoneOf(s, " #", n) && NoneOf(s, "\t//", n) && FirstOf(s, " //", n, c))
  }

  lemma FindIs(s: string, pat: string, n: nat, c: nat)
    requires n <= |s|
    ensures Find(s, pat, n) == Some(c) <==> FirstOf(s, pat, n, c)
    ensures Find(s, pat, n).None? <==> NoneOf(s, pat, n)
  {
    hide Find, Occurs;
  }

  lemma PickedIs(s: string, n: nat, c: nat)
    requires n <= |s|
    ensures CommentAt(s, n) == Some(c) <==> Picked(s, n, c)
  {
    hide Find, FirstOf, NoneOf;
    FindIs(s, "\t#", n, c);
    FindIs(s, " #", n, c);
    FindIs(s, "\t//", n, c);
    FindIs(s, " //", n, c);
  }

  /** Where a comment begins there is a blank, and then none. */
  lemma MarkChars(s: string, m: int)
    requires Mark(s, m)
    ensures 0 <= m < |s| - 1 && s[m] in BLANKS && (s[m+1] == '#' || s[m+1] == '/')
  {
    assert s[m..m+2] == [s[m], s[m+1]];
    assert |s| - m >= 3 ==> s[m..m+3] == [s[m], s[m+1], s[m+2]];
  }

  /** The text behind '=' has n blanks in front, a comment may first begin at
      m, and the searches settle on c. The value is what stands between, up to
      its last character that is no blank, the t-th. It is kept exactly if the
      cut, which is made n characters too early, falls behind the value and no
      further than in front of the comment's own text. */
  lemma CommentCut(s: string, n: nat, m: nat, c: nat) returns (t: nat)
    requires FirstNotOf(s, BLANKS) == Some(n) && FirstMark(s, n, m) && Picked(s, n, c)
    ensures n <= t < m < |s| && LastNotOf(s[..m], BLANKS) == Some(t)
    ensures Value(s) == Some(s[n..t+1]) <==> t + 1 <= c - n <= m + 1
  {
    hide CommentAt, Picked, FirstMark, Mark, Value, LastNotOf, FirstNotOf;
    FirstMarkIs(s, n, m);
    MarkChars(s, m);
    PickedIs(s, n, c);
    PickedMark(s, n, c, m);
    assert s[..m][n] == s[n];
    t := LastNotOf(s[..m], BLANKS).value;
    assert s[..m][t] == s[t];
    ValueIs(s, n, c);
    CutEnds(s, n, m, t, c - n);
  }

  /** The cut at e leaves the value exactly if it falls where CommentCut says. */
  lemma CutEnds(s: string, n: nat, m: nat, t: nat, e: nat)
    requires n <= t < m < |s| - 1 && s[m] in BLANKS && s[m+1] !in BLANKS
    requires LastNotOf(s[..m], BLANKS) == Some(t) && e <= |s|
    ensures (LastNotOf(s[..e], BLANKS).Some? && n <= LastNotOf(s[..e], BLANKS).value
             && s[..e][n..LastNotOf(s[..e], BLANKS).value+1] == s[n..t+1]) <==> t + 1 <= e <= m + 1
  {
    hide LastNotOf;
    assert s[..m][t] == s[t];
    var cut := s[..e];
    assert forall k :: 0 <= k < e ==> cut[k] == s[k];
    if t < e <= m + 1 {
      CutBehind(s, m, t, e);
      assert cut[n..t+1] == s[n..t+1];
    } else if LastNotOf(cut, BLANKS).Some? && n <= LastNotOf(cut, BLANKS).value {
      var last := LastNotOf(cut, BLANKS).value;
      assert e > m + 1 ==> cut[m+1] !in BLANKS;
      assert last != t;
      assert |s[n..t+1]| == t + 1 - n && |cut[n..last+1]| == last + 1 - n;
    }
  }

  lemma ValueIs(s: string, n: nat, c: nat)
    requires FirstNotOf(s, BLANKS) == Some(n) && CommentAt(s, n) == Some(c) && c < |s|
    ensures n <= c
    ensures match LastNotOf(s[..c-n], BLANKS)
            case None => Value(s).None?
            case Some(last) => n <= last < c - n && Value(s) == Some(s[..c-n][n..last+1])
  {
    hide CommentAt, FirstNotOf, LastNotOf;
    var cut := s[..c-n];
    assert CutComment(s, n) == cut;
    if LastNotOf(cut, BLANKS).Some? {
      var last := LastNotOf(cut, BLANKS).value;
      assert cut[last] == s[last];
    }
  }

  lemma FirstMarkIs(s: string, n: nat, m: nat)
    requires FirstMark(s, n, m)
    ensures n <= m && Mark(s, m) && forall k {:trigger Mark(s, k)} :: n <= k < m ==> !Mark(s, k)
  {
  }

  lemma PickedMark(s: string, n: nat, c: nat, m: nat)
    requires FirstMark(s, n, m) && Picked(s, n, c) && n <= |s|
    ensures m <= c < |s| && Mark(s, c)
  {
    hide Occurs;
    assert Mark(s, c);
    MarkChars(s, c);
  }

  /** Behind the t-th character there are only blanks up to the m-th. */
  lemma CutBehind(s: string, m: nat, t: nat, e: nat)
    requires t < m < |s| && LastNotOf(s[..m], BLANKS) == Some(t) && s[m] in BLANKS && t < e <= m + 1
    ensures LastNotOf(s[..e], BLANKS) == Some(t)
  {
    assert s[..m][t] == s[t] && s[..e][t] == s[t];
    assert forall k :: t < k < e ==> s[..e][k] == s[k] && (k < m ==> s[..m][k] == s[k]);
    LastNotOfIs(s[..e], t);
  }

  lemma LastNotOfIs(s: string, t: nat)
    requires t < |s| && s[t] !in BLANKS && forall k :: t < k < |s| ==> s[k] in BLANKS
    ensures LastNotOf(s, BLANKS) == Some(t)
  {
    hide LastNotOf;
  }

  /** Without blanks in front: the searches must settle on the first place at
      which a comment may begin. */
  lemma CommentCutFlush(s: string, m: nat, c: nat) returns (t: nat)
    requires FirstNotOf(s, BLANKS) == Some(0) && FirstMark(s, 0, m) && Picked(s, 0, c)
    ensures t < m < |s| && LastNotOf(s[..m], BLANKS) == Some(t)
    ensures Value(s) == Some(s[0..t+1]) <==> c == m
  {
    hide Value, Picked, FirstMark, Mark;
    t := CommentCut(s, 0, m, c);
    PickedMark(s, 0, c, m);
    FirstMarkIs(s, 0, m);
    MarkChars(s, m);
    MarkChars(s, c);
  }

  /** Wherever a comment may begin, the searches settle on some place. */
  lemma MarksFound(s: string, n: nat, k: nat) returns (m: nat, c: nat)
    requires n <= k && n <= |s| && Mark(s, k)
    ensures FirstMark(s, n, m) && Picked(s, n, c)
  {
    m := n;
    while !Mark(s, m)
      invariant n <= m <= k && forall j {:trigger Mark(s, j)} :: n <= j < m ==> !Mark(s, j)
      decreases k - m
    {
      m := m + 1;
    }
    c := CommentAt(s, n).value;
    PickedIs(s, n, c);
  }

  /** Without a comment the value is kept. */
  lemma NoComment(s: string, n: nat)
    requires FirstNotOf(s, BLANKS) == Some(n) && forall k {:trigger Mark(s, k)} :: n <= k ==> !Mark(s, k)
    ensures LastNotOf(s, BLANKS).Some? && n <= LastNotOf(s, BLANKS).value
    ensures Value(s) == Some(s[n..LastNotOf(s, BLANKS).value+1])
  {
    hide Find, Occurs;
    forall k | n <= k
      ensures !Occurs(s, "\t#", k) && !Occurs(s, " #", k) && !Occurs(s, "\t//", k) && !Occurs(s, " //", k)
    {
      assert !Mark(s, k);
    }
    FindIs(s, "\t#", n, n);
    FindIs(s, " #", n, n);
    FindIs(s, "\t//", n, n);
    FindIs(s, " //", n, n);
  }

  // Three texts: one loses a character of its value, one keeps a part of its
  // comment, and one is read as it should be because the two faults meet.

  lemma OccursChars(s: string, pat: string, k: int)
    requires Occurs(s, pat, k) && |pat| > 1
    ensures 0 <= k < |s| - 1 && s[k] == pat[0] && s[k+1] == pat[1]
  {
    assert s[k..k+|pat|][0] == s[k] && s[k..k+|pat|][1] == s[k+1];
  }

  lemma FirstNotOfIs(s: string, n: nat)
    requires n < |s| && s[n] !in BLANKS && forall k :: 0 <= k < n ==> s[k] in BLANKS
    ensures FirstNotOf(s, BLANKS) == Some(n)
  {
    hide FirstNotOf;
  }

  /** The value loses its last character to the blank in front of it. */
  lemma CommentCutShort()
    ensures Value(" ab #c") != Some("ab")
  {
    hide Value, Find, FirstNotOf, LastNotOf, Occurs;
    var s := " ab #c";
    FirstNotOfIs(s, 1);
    OneMark(s, 1, 3);
    forall k | 1 <= k
      ensures !Occurs(s, "\t#", k)
    {
      if Occurs(s, "\t#", k) {
        OccursChars(s, "\t#", k);
      }
    }
    assert NoneOf(s, "\t#", 1) && Picked(s, 1, 3);
    var t := CommentCut(s, 1, 3, 3);
    BareEnd(s, 3, 2, t);
    assert s[1..3] == "ab";
  }

  /** The only place from n on where a comment may begin. */
  lemma OneMark(s: string, n: nat, m: nat)
    requires n <= m < |s| - 1 && s[m] == ' ' && s[m+1] == '#' && forall k :: n <= k < m ==> s[k] !in BLANKS
    ensures FirstMark(s, n, m) && FirstOf(s, " #", n, m)
  {
    hide Occurs;
    assert s[m..m+2] == " #";
    OccursWhen(s, " #", m);
    forall k | n <= k < m
      ensures !Mark(s, k) && !Occurs(s, " #", k)
    {
      if Mark(s, k) || Occurs(s, " #", k) {
        MarkChars(s, k);
        assert false;
      }
    }
    assert Mark(s, m);
    FirstOfIs(s, " #", n, m);
  }

  lemma FirstOfIs(s: string, pat: string, n: nat, c: nat)
    requires n <= c && Occurs(s, pat, c) && forall k :: n <= k < c ==> !Occurs(s, pat, k)
    ensures FirstOf(s, pat, n, c)
  {
  }

  lemma OccursWhen(s: string, pat: string, k: nat)
    requires k + |pat| <= |s| && s[k..k+|pat|] == pat
    ensures Occurs(s, pat, k)
  {
  }

  lemma BareEnd(s: string, m: nat, u: nat, t: nat)
    requires u < m <= |s| && s[u] !in BLANKS && (forall k :: u < k < m ==> s[k] in BLANKS)
             && LastNotOf(s[..m], BLANKS) == Some(t)
    ensures t == u
  {
    assert s[..m][u] == s[u] && s[..m][t] == s[t];
    assert forall k :: u < k < m ==> s[..m][k] == s[k];
  }

  /** A "#" behind a tab is found first, although it stands last. */
  lemma TabFirst(s: string, n: nat, c: nat)
    requires n <= c < |s| - 1 && s[c] == '\t' && s[c+1] == '#' && forall k :: n <= k < c ==> s[k] != '\t'
    ensures Picked(s, n, c)
  {
    hide Occurs;
    assert s[c..c+2] == "\t#";
    OccursWhen(s, "\t#", c);
    forall k | n <= k < c
      ensures !Occurs(s, "\t#", k)
    {
      if Occurs(s, "\t#", k) {
        OccursChars(s, "\t#", k);
      }
    }
    FirstOfIs(s, "\t#", n, c);
  }

  /** The value keeps the first of two comments. */
  lemma CommentKept()
    ensures Value("ab #c\t#d") == Some("ab #c")
  {
    hide Value, Find, FirstNotOf, LastNotOf, Occurs, CommentAt;
    var s := "ab #c\t#d";
    FirstNotOfIs(s, 0);
    TabFirst(s, 0, 5);
    PickedIs(s, 0, 5);
    ValueIs(s, 0, 5);
    assert s[..5] == "ab #c" && "ab #c"[0..5] == "ab #c";
    LastNotOfIs("ab #c", 4);
  }

  /** Three blanks in front make up for it. */
  lemma FaultsMeet()
    ensures Value("   ab #c\t#d") == Some("ab")
  {
    hide Value, Find, FirstNotOf, LastNotOf, Occurs, CommentAt, Picked;
    var s := "   ab #c\t#d";
    FirstNotOfIs(s, 3);
    OneMark(s, 3, 5);
    TabFirst(s, 3, 8);
    var t := CommentCut(s, 3, 5, 8);
    BareEnd(s, 5, 4, t);
    assert s[3..5] == "ab";
  }

  lemma BlankRead(st: State)
    ensures ReadLine(st, "") == st
  {
  }

  // ----- a whole text -----------------------------------------------------

  predicate WholeLines(text: string) {
    text == "" || text[|text|-1] == '\n'
  }

  lemma {:induction false} ReadConcat(st: State, a: string, b: string)
    requires WholeLines(a)
    ensures ReadText(st, a + b) == ReadText(ReadText(st, a), b)
    decreases |a|
  {
    hide ReadLine, StrChr;
    if a == "" {
      NowhereIs("", '\n');
      assert a + b == b;
    } else {
      var k := StrChr(a, '\n').value;
      assert (a + b)[..k] == a[..k] && (a + b)[k+1..] == a[k+1..] + b;
      FirstIs(a + b, '\n', k);
      ReadConcat(ReadLine(st, a[..k]), a[k+1..], b);
    }
  }

  lemma OneLine(st: State, line: string)
    requires '\n' !in line
    ensures ReadText(st, line + "\n") == ReadLine(st, line)
  {
    hide ReadLine, StrChr;
    var text := line + "\n";
    assert text[..|line|] == line && text[|line|+1..] == "";
    FirstIs(text, '\n', |line|);
    NowhereIs("", '\n');
  }

  ghost function SectionsOf(keys: seq<string>): set<string> {
    set k | k in keys :: SectOf(k)
  }

  ghost function Part(m: Config, keys: seq<string>): Config
    requires forall k | k in keys :: k in m
  {
    map k | k in keys :: m[k]
  }

  /** What stands between the text so far and the entry. */
  function Heading(o: Output, sect: string): string {
    if sect in o.sections then "" else (if o.sections == {} then "" else "\n") + (Header(sect) + "\n")
  }

  lemma WriteIs(o: Output, mapkey: string, value: string)
    requires Find(mapkey, MIDDLE, 0).Some?
    ensures var loc := Find(mapkey, MIDDLE, 0).value;
            && WriteEntry(o, mapkey, value).text
               == o.text + Heading(o, mapkey[..loc]) + Line(mapkey[loc+|MIDDLE|..], value)
            && WriteEntry(o, mapkey, value).sections == o.sections + {mapkey[..loc]}
  {
  }

  lemma HeadingRead(st: State, o: Output, sect: string)
    requires '\n' !in sect && NUL !in sect && (sect in o.sections ==> st.sect == sect)
    ensures WholeLines(Heading(o, sect)) && ReadText(st, Heading(o, sect)) == st.(sect := sect)
  {
    hide ReadLine, ReadText, Header;
    if sect in o.sections {
      NothingFound(st);
    } else {
      NoNewline(sect);
      HeaderRead(st, sect);
      OneLine(st, Header(sect));
      BlankRead(st);
      OneLine(st, "");
      assert "" + "\n" == "\n" && "" + (Header(sect) + "\n") == Header(sect) + "\n";
      ReadConcat(st, "\n", Header(sect) + "\n");
    }
  }

  lemma NothingFound(st: State)
    ensures ReadText(st, "") == st
  {
    NowhereIs("", '\n');
  }

  lemma NoNewline(sect: string)
    requires '\n' !in sect
    ensures '\n' !in Header(sect)
  {
  }

  /** An entry that is written is read into the map. */
  lemma EntryKept(o: Output, st: State, mapkey: string, value: string)
    requires CleanEntry(mapkey, value) && WholeLines(o.text) && ReadText(START, o.text) == st
    requires SectOf(mapkey) in o.sections ==> st.sect == SectOf(mapkey)
    ensures var p := WriteEntry(o, mapkey, value);
            && WholeLines(p.text) && p.sections == o.sections + {SectOf(mapkey)}
            && ReadText(START, p.text) == State(SectOf(mapkey), st.config[mapkey := value])
  {
    hide ReadLine, ReadText, CleanSection, Stands, Heading, WriteEntry;
    var loc := Find(mapkey, MIDDLE, 0).value;
    var sect, key := mapkey[..loc], mapkey[loc+|MIDDLE|..];
    WriteIs(o, mapkey, value);
    SectionNamed(sect);
    HeadingRead(st, o, sect);
    EntryRead(st.(sect := sect), key, value);
    EntryLine(key, value);
    OneLine(st.(sect := sect), key + "=" + value);
    ReadConcat(START, o.text, Heading(o, sect));
    JoinedLines(o.text, Heading(o, sect));
    ReadConcat(START, o.text + Heading(o, sect), Line(key, value));
    BeginsWith(mapkey);
  }

  lemma SectionNamed(sect: string)
    requires CleanSection(sect)
    ensures sect != "" && '\n' !in sect && NUL !in sect
  {
  }

  lemma EntryLine(key: string, value: string)
    requires '\n' !in key + value
    ensures '\n' !in key + "=" + value
  {
  }

  lemma JoinedLines(a: string, b: string)
    requires WholeLines(a) && WholeLines(b)
    ensures WholeLines(a + b)
  {
  }

  lemma SectClean(mapkey: string, value: string)
    requires CleanEntry(mapkey, value)
    ensures Find(mapkey, MIDDLE, 0).Some?
  {
  }

  /** If the section of the last key has been met before, it was just now. */
  lemma SectionCurrent(m: Config, keys: seq<string>, k: string)
    requires Clean(m) && keys != [] && Sorted(keys + [k]) && (forall x | x in keys + [k] :: x in m)
    requires exists j :: 0 <= j < |keys| && SectOf(keys[j]) == SectOf(k)
    ensures SectOf(keys[|keys|-1]) == SectOf(k)
  {
    hide Less, CleanEntry, SectOf;
    var all := keys + [k];
    var j :| 0 <= j < |keys| && SectOf(keys[j]) == SectOf(k);
    if j < |keys| - 1 {
      assert Less(all[j], all[|keys|-1]) && Less(all[|keys|-1], all[|keys|]);
      assert keys[j] in all && k in all;
      assert CleanEntry(keys[j], m[keys[j]]) && CleanEntry(k, m[k]);
      SectClean(keys[j], m[keys[j]]);
      SectClean(k, m[k]);
      SectionsTogether(keys[j], keys[|keys|-1], k);
    }
  }

  /** What has been written for the keys so far is read back. */
  ghost predicate ReadBack(m: Config, keys: seq<string>)
    requires forall k | k in keys :: k in m
  {
    var o := WriteAll(m, keys);
    && WholeLines(o.text) && o.sections == SectionsOf(keys)
    && ReadText(START, o.text) == State(if keys == [] then "" else SectOf(keys[|keys|-1]), Part(m, keys))
  }

  lemma ReadBackNext(m: Config, front: seq<string>, k: string)
    requires Clean(m) && Sorted(front + [k]) && (forall x | x in front + [k] :: x in m)
    requires (forall x | x in front :: x in m) && k in m && ReadBack(m, front)
    ensures ReadBack(m, front + [k])
  {
    hide ReadText, WriteEntry, SectOf, CleanEntry, Sorted, Part, WholeLines, SectionsOf;
    var o := WriteAll(m, front);
    SectionsMore(front, k);
    if SectOf(k) in o.sections {
      SectionCurrent(m, front, k);
    }
    assert CleanEntry(k, m[k]);
    EntryKept(o, ReadText(START, o.text), k, m[k]);
    PartMore(m, front, k);
    assert (front + [k])[..|front|] == front;
  }

  /** What is written for the entries in key order is read back. */
  lemma {:induction false} SavedIsRead(m: Config, keys: seq<string>)
    requires Clean(m) && Sorted(keys) && forall k | k in keys :: k in m
    ensures ReadBack(m, keys)
    decreases |keys|
  {
    if keys == [] {
      ReadBackNone(m);
    } else {
      hide ReadBack, Clean, Less;
      var front, k := keys[..|keys|-1], keys[|keys|-1];
      assert keys == front + [k] && k in keys;
      SavedIsRead(m, front);
      ReadBackNext(m, front, k);
    }
  }

  lemma ReadBackNone(m: Config)
    ensures ReadBack(m, [])
  {
    hide ReadText, Part, WholeLines, SectionsOf;
    NothingFound(START);
    PartNone(m);
  }

  lemma PartNone(m: Config)
    ensures Part(m, []) == map[] && WholeLines("") && SectionsOf([]) == {}
  {
  }

  lemma PartMore(m: Config, front: seq<string>, k: string)
    requires k in m && forall x | x in front :: x in m
    ensures Part(m, front + [k]) == Part(m, front)[k := m[k]]
  {
  }

  lemma SectionsMore(front: seq<string>, k: string)
    ensures SectionsOf(front + [k]) == SectionsOf(front) + {SectOf(k)}
    ensures SectOf(k) in SectionsOf(front) <==> exists j :: 0 <= j < |front| && SectOf(front[j]) == SectOf(k)
  {
    hide SectOf;
    assert forall x :: x in front + [k] <==> x in front || x == k;
  }

  lemma PartAll(m: Config, keys: seq<string>)
    requires forall k :: k in keys <==> k in m
    ensures Part(m, keys) == m
  {
  }

  /** Saving and loading keeps a map of clean entries as it is. */
  lemma SaveLoad(m: Config, keys: seq<string>)
    requires Clean(m) && Sorted(keys) && forall k :: k in keys <==> k in m
    ensures ReadText(START, WriteAll(m, keys).text).config == m
  {
    hide ReadText, WriteAll, Clean, Sorted, SectionsOf, WholeLines, Part;
    SavedIsRead(m, keys);
    PartAll(m, keys);
  }
}
