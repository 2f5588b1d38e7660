/** libspider/IniFile.cpp: exactly which maps survive saving and loading. */
module IniExact {
  import opened Chars
  import opened CStrings
  import opened IniFormat
  import opened IniTheorems
  import opened Options
  import opened Seqs

  // ----- nothing that is read holds an end of line or a NUL ----------------

  predicate Unbroken(s: string) {
    '\n' !in s && NUL !in s
  }

  ghost predicate OneLiner(m: Config) {
    forall k {:trigger m[k]} | k in m :: Unbroken(k) && Unbroken(m[k])
  }

  lemma PartsOneLine(line: string)
    requires Unbroken(line)
    ensures Unbroken(Trim(line))
    ensures SectionOf(line).Some? ==> Unbroken(SectionOf(line).value)
    ensures Entry(line).Some? ==> Unbroken(Entry(line).value.0) && Unbroken(Entry(line).value.1)
  {
    hide Trim, SectionOf, Entry;
    TrimIn(line);
    SectionIn(line);
    EntryIn(line);
  }

  lemma EntryIn(line: string)
    ensures Entry(line).Some? ==> forall c :: c in Entry(line).value.0 || c in Entry(line).value.1 ==> c in line
  {
    hide Value, FirstNotOf, LastNotOf;
    match StrChr(line, '=')
    case None =>
    case Some(eq) =>
      ValueIn(line[eq+1..]);
      if Entry(line).Some? {
        var s1 := line[..eq];
        var first, last := FirstNotOf(s1, BLANKS).value, LastNotOf(s1, BLANKS).value;
        SliceIn(line, 0, eq);
        SliceIn(line, eq + 1, |line|);
        SliceIn(s1, first, last + 1);
      }
  }

  lemma SliceIn(s: string, i: nat, j: nat)
    requires i <= j <= |s|
    ensures forall c :: c in s[i..j] ==> c in s
  {
  }

  lemma TrimIn(line: string)
    ensures forall c :: c in Trim(line) ==> c in line
  {
    hide FirstNotOf, LastNotOf;
  }

  lemma SectionIn(line: string)
    ensures SectionOf(line).Some? ==> forall c :: c in SectionOf(line).value ==> c in line
  {
    hide StrChr, StrRChr;
  }

  lemma ValueIn(s: string)
    ensures Value(s).Some? ==> forall c :: c in Value(s).value ==> c in s
  {
    hide FirstNotOf, LastNotOf, CommentAt;
    match FirstNotOf(s, BLANKS)
    case None =>
    case Some(first) =>
      assert forall c :: c in CutComment(s, first) ==> c in s;
  }

  lemma LineOneLine(st: State, line: string)
    requires '\n' !in line && Unbroken(st.sect) && OneLiner(st.config)
    ensures var t := ReadLine(st, line); Unbroken(t.sect) && OneLiner(t.config)
  {
    hide Trim, CString, SectionOf, Entry;
    PartsOneLine(CString(line));
    PartsOneLine(Trim(CString(line)));
  }

  lemma {:induction false} TextOneLine(st: State, text: string)
    requires Unbroken(st.sect) && OneLiner(st.config)
    ensures var t := ReadText(st, text); Unbroken(t.sect) && OneLiner(t.config)
    decreases |text|
  {
    hide ReadLine, StrChr, OneLiner;
    match StrChr(text, '\n')
    case None =>
    case Some(k) =>
      LineOneLine(st, text[..k]);
      TextOneLine(ReadLine(st, text[..k]), text[k+1..]);
  }

  // ----- what a written entry stores --------------------------------------

  /** The entry that reading this line puts into the map. */
  function Stored(st: State, text: string): seq<(string, string)> {
    var line := Trim(CString(text));
    if SectionOf(line).Some? || st.sect == "" then []
    else
      match Entry(line)
      case None => []
      case Some(e) => [(MapKey(st.sect, e.0), e.1)]
  }

  function MapOf(log: seq<(string, string)>): Config {
    if log == [] then map[] else MapOf(log[..|log|-1])[log[|log|-1].0 := log[|log|-1].1]
  }

  lemma StoredIs(st: State, text: string)
    ensures Stored(st, text) == [] ==> ReadLine(st, text).config == st.config
    ensures Stored(st, text) != [] ==>
      |Stored(st, text)| == 1
      && ReadLine(st, text) == st.(config := st.config[Stored(st, text)[0].0 := Stored(st, text)[0].1])
  {
  }

  /** The state in which the line of the entry k is read. */
  function Reached(o: Output, sect: string): State {
    var st := ReadText(START, o.text);
    if sect in o.sections then st else st.(sect := sect)
  }

  /** All that has been stored once the entries in keys are read back. */
  function Log(m: Config, keys: seq<string>): seq<(string, string)>
    requires forall k | k in keys :: k in m
  {
    if keys == [] then []
    else
      var front, k := keys[..|keys|-1], keys[|keys|-1];
      match Find(k, MIDDLE, 0)
      case None => Log(m, front)
      case Some(loc) =>
        Log(m, front) + Stored(Reached(WriteAll(m, front), k[..loc]), k[loc+|MIDDLE|..] + "=" + m[k])
  }

  lemma MapOfMore(log: seq<(string, string)>, k: string, v: string)
    ensures MapOf(log + [(k, v)]) == MapOf(log)[k := v]
  {
    assert (log + [(k, v)])[..|log|] == log;
  }

  lemma StoresOne(log: seq<(string, string)>, st: State, text: string)
    requires st.config == MapOf(log)
    ensures ReadLine(st, text).config == MapOf(log + Stored(st, text)) && |Stored(st, text)| <= 1
  {
    hide MapOf, Stored, ReadLine;
    StoredIs(st, text);
    if Stored(st, text) == [] {
      assert log + [] == log;
    } else {
      var e := Stored(st, text)[0];
      assert Stored(st, text) == [(e.0, e.1)];
      MapOfMore(log, e.0, e.1);
    }
  }

  /** One more entry is written and read. */
  lemma EntryLogged(o: Output, mapkey: string, value: string, log: seq<(string, string)>)
    requires Find(mapkey, MIDDLE, 0).Some? && Unbroken(mapkey) && Unbroken(value)
    requires WholeLines(o.text) && ReadText(START, o.text).config == MapOf(log)
    ensures var loc := Find(mapkey, MIDDLE, 0).value;
            var st, line := Reached(o, mapkey[..loc]), mapkey[loc+|MIDDLE|..] + "=" + value;
            && WholeLines(WriteEntry(o, mapkey, value).text)
            && ReadText(START, WriteEntry(o, mapkey, value).text) == ReadLine(st, line)
            && ReadLine(st, line).config == MapOf(log + Stored(st, line)) && |Stored(st, line)| <= 1
  {
    hide ReadLine, ReadText, Heading, WriteEntry, MapOf, Stored, WholeLines;
    var loc := Find(mapkey, MIDDLE, 0).value;
    var sect, key := mapkey[..loc], mapkey[loc+|MIDDLE|..];
    var st := Reached(o, sect);
    WriteIs(o, mapkey, value);
    HeadingReached(o, sect);
    EntryLine(key, value);
    OneLine(st, key + "=" + value);
    ReadConcat(START, o.text, Heading(o, sect));
    JoinedLines(o.text, Heading(o, sect));
    ReadConcat(START, o.text + Heading(o, sect), Line(key, value));
    LineWhole(key, value);
    JoinedLines(o.text + Heading(o, sect), Line(key, value));
    StoresOne(log, st, key + "=" + value);
  }

  lemma LineWhole(key: string, value: string)
    ensures WholeLines(Line(key, value)) && Line(key, value) == key + "=" + value + "\n"
  {
  }

  lemma HeadingReached(o: Output, sect: string)
    requires Unbroken(sect)
    ensures WholeLines(Heading(o, sect))
    ensures ReadText(ReadText(START, o.text), Heading(o, sect)) == Reached(o, sect)
  {
    hide ReadText;
    var st := ReadText(START, o.text);
    if sect in o.sections {
      NothingFound(st);
    } else {
      HeadingRead(st, o, sect);
    }
  }

  /** What has been written for the entries reads as the log says. */
  lemma {:induction false} LogIs(m: Config, keys: seq<string>)
    requires OneLiner(m) && forall k | k in keys :: k in m
    ensures WholeLines(WriteAll(m, keys).text) && ReadText(START, WriteAll(m, keys).text).config == MapOf(Log(m, keys))
    ensures |Log(m, keys)| <= |keys|
    decreases |keys|
  {
    hide ReadText, WriteEntry, MapOf, Stored, WholeLines, Reached;
    if keys == [] {
      NothingFound(START);
      assert WholeLines("") && MapOf([]) == map[] by { EmptyLog(); }
    } else {
      var front, k := keys[..|keys|-1], keys[|keys|-1];
      LogIs(m, front);
      assert k in m && Unbroken(k) && Unbroken(m[k]);
      if Find(k, MIDDLE, 0).Some? {
        EntryLogged(WriteAll(m, front), k, m[k], Log(m, front));
      } else {
        NotWritten(WriteAll(m, front), k, m[k]);
      }
    }
  }

  lemma EmptyLog()
    ensures WholeLines("") && MapOf([]) == map[]
  {
  }

  lemma NotWritten(o: Output, k: string, v: string)
    requires Find(k, MIDDLE, 0).None?
    ensures WriteEntry(o, k, v) == o
  {
  }

  // ----- a log without loss -----------------------------------------------

  ghost function Keys(log: seq<(string, string)>): (r: seq<string>)
    ensures |r| == |log| && forall i :: 0 <= i < |log| ==> r[i] == log[i].0
  {
    seq(|log|, i requires 0 <= i < |log| => log[i].0)
  }

  /** As many keys in the map as entries in the log: no key comes twice, and
      each has the value of its entry. */
  lemma {:induction false} MapOfCount(log: seq<(string, string)>)
    ensures |MapOf(log)| <= |log| && (forall k :: k in MapOf(log) <==> k in Keys(log))
    ensures |MapOf(log)| == |log| ==>
              NoDup(Keys(log)) && forall i :: 0 <= i < |log| ==> MapOf(log)[log[i].0] == log[i].1
    decreases |log|
  {
    hide NoDup;
    if log != [] {
      var front, e := log[..|log|-1], log[|log|-1];
      MapOfCount(front);
      assert Keys(log) == Keys(front) + [e.0];
      MapMore(MapOf(front), e.0, e.1);
      if |MapOf(log)| == |log| {
        NoDupMore(Keys(front), e.0);
      }
    } else {
      NoDupNone();
    }
  }

  lemma MapMore(m: Config, k: string, v: string)
    ensures |m[k := v]| == if k in m then |m| else |m| + 1
  {
    assert m[k := v].Keys == m.Keys + {k};
    assert |m.Keys| == |m| && |m[k := v].Keys| == |m[k := v]|;
  }

  lemma NoDupMore(ks: seq<string>, k: string)
    requires NoDup(ks) && k !in ks
    ensures NoDup(ks + [k])
  {
  }

  lemma NoDupNone()
    ensures NoDup<string>([])
  {
  }

  function Length(ss: seq<string>): nat {
    if ss == [] then 0 else Length(ss[..|ss|-1]) + |ss[|ss|-1]|
  }

  lemma {:induction false} LengthWithout(ss: seq<string>, i: nat)
    requires i < |ss|
    ensures Length(ss) == Length(ss[..i] + ss[i+1..]) + |ss[i]|
    decreases |ss|
  {
    var n := |ss| - 1;
    var rest := ss[..i] + ss[i+1..];
    if i < n {
      assert ss[..n][..i] == ss[..i];
      assert rest[..|rest|-1] == ss[..n][..i] + ss[..n][i+1..];
      LengthWithout(ss[..n], i);
    } else {
      assert rest == ss[..n];
    }
  }

  lemma OthersIn(a: seq<string>, i: nat, y: string)
    requires i < |a| && NoDup(a)
    ensures y in a[..i] + a[i+1..] <==> y in a && y != a[i]
  {
    var rest := a[..i] + a[i+1..];
    if y in rest {
      var j :| 0 <= j < |rest| && rest[j] == y;
      assert y == a[if j < i then j else j + 1];
    }
    if y in a && y != a[i] {
      var j :| 0 <= j < |a| && a[j] == y;
      assert y == rest[if j < i then j else j - 1];
    }
  }

  lemma OthersOnce(a: seq<string>, i: nat)
    requires i < |a| && NoDup(a)
    ensures NoDup(a[..i] + a[i+1..])
  {
    var rest := a[..i] + a[i+1..];
    assert forall j :: 0 <= j < |rest| ==> rest[j] == a[if j < i then j else j + 1];
  }

  /** The same strings, each once, are as long together. */
  lemma {:induction false} SameLength(a: seq<string>, b: seq<string>)
    requires NoDup(a) && NoDup(b) && |a| == |b| && forall x :: x in a <==> x in b
    ensures Length(a) == Length(b)
    decreases |a|
  {
    hide NoDup;
    if a != [] {
      var n := |a| - 1;
      assert a[n] in b;
      var i :| 0 <= i < |b| && b[i] == a[n];
      assert a[..n] == a[..n] + a[n+1..];
      LengthWithout(b, i);
      OthersOnce(a, n);
      OthersOnce(b, i);
      forall y
        ensures y in a[..n] <==> y in b[..i] + b[i+1..]
      {
        OthersIn(a, n, y);
        OthersIn(b, i, y);
      }
      SameLength(a[..n], b[..i] + b[i+1..]);
    }
  }

  lemma {:induction false} EachAsLong(a: seq<string>, b: seq<string>)
    requires |a| == |b| && (forall i :: 0 <= i < |a| ==> |a[i]| <= |b[i]|)
    ensures Length(a) <= Length(b)
    ensures Length(a) == Length(b) ==> forall i :: 0 <= i < |a| ==> |a[i]| == |b[i]|
    decreases |a|
  {
    if a != [] {
      EachAsLong(a[..|a|-1], b[..|b|-1]);
    }
  }

  // ----- what each line stores --------------------------------------------

  lemma FirstBound(s: string, c: char, i: nat)
    requires i < |s| && s[i] == c
    ensures StrChr(s, c).Some? && StrChr(s, c).value <= i
  {
  }

  /** Trimming keeps a character that is no blank, and what is around it. */
  lemma TrimKeeps(line: string, i: nat) returns (b: nat)
    requires i < |line| && line[i] !in EDGES
    ensures b <= i < b + |Trim(line)| <= |line| && Trim(line) == line[b..b+|Trim(line)|] && Trim(line)[i-b] == line[i]
  {
    hide FirstNotOf, LastNotOf;
    b := FirstNotOf(line, EDGES).value;
    var l := LastNotOf(line, EDGES).value;
    assert b <= i <= l;
    assert Trim(line) == line[b..l+1];
  }

  lemma KeyInFront(t: string, k: string, v: string, at: nat)
    requires Entry(t) == Some((k, v)) && at < |t| && t[at] == '='
    ensures |k| <= at && (|k| == at ==> k == t[..at])
  {
    hide StrChr, Value, LastNotOf;
    FirstBound(t, '=', at);
  }

  /** A key that is read is a part of what stands in front of the first '='. */
  lemma KeyShortens(key: string, value: string, k: string, v: string)
    requires Entry(Trim(CString(key + "=" + value))) == Some((k, v)) && Unbroken(key) && Unbroken(value)
    ensures |k| <= |key| && (|k| == |key| ==> k == key)
  {
    hide Trim, CString, Entry;
    var line := key + "=" + value;
    assert line[|key|] == '=' && NUL !in line;
    var b := TrimKeeps(line, |key|);
    var t := Trim(line);
    KeyInFront(t, k, v, |key| - b);
    if |k| == |key| {
      assert b == 0 && t[..|key|] == line[..|key|] == key;
    }
  }

  /** Each entry stores something: so each is read below its own section. */
  ghost predicate Exact(m: Config, keys: seq<string>, log: seq<(string, string)>, i: nat)
    requires i < |keys| == |log| && keys[i] in m
  {
    match Find(keys[i], MIDDLE, 0)
    case None => false
    case Some(loc) =>
      var sect, key := keys[i][..loc], keys[i][loc+|MIDDLE|..];
      && sect != ""
      && |log[i].0| <= |keys[i]|
      && (|log[i].0| == |keys[i]| ==> log[i].0 == keys[i])
      && (log[i] == (keys[i], m[keys[i]]) ==> Stands(key, m[keys[i]]))
  }

  lemma ExactOne(sect: string, key: string, value: string, st: State)
    requires st.sect == sect && Stored(st, key + "=" + value) != [] && Unbroken(key) && Unbroken(value)
    ensures sect != "" && |Stored(st, key + "=" + value)| == 1
    ensures var e := Stored(st, key + "=" + value)[0];
            && |e.0| <= |MapKey(sect, key)| && (|e.0| == |MapKey(sect, key)| ==> e.0 == MapKey(sect, key))
            && (e == (MapKey(sect, key), value) ==> Stands(key, value))
  {
    hide Trim, CString, SectionOf, Entry, Stands;
    var line := key + "=" + value;
    var (k, v) := Entry(Trim(CString(line))).value;
    KeyShortens(key, value, k, v);
    if MapKey(sect, k) == MapKey(sect, key) && v == value {
      var p := |sect + MIDDLE|;
      assert MapKey(sect, k)[p..] == k && MapKey(sect, key)[p..] == key;
      EntryExactly(sect, key, value);
    }
  }

  /** No entry among keys is lost: the section in force is that of the last
      one, and each does what Exact says. */
  ghost predicate AllExact(m: Config, keys: seq<string>)
    requires forall k | k in keys :: k in m
  {
    && |Log(m, keys)| == |keys|
    && (forall i :: 0 <= i < |keys| ==> Exact(m, keys, Log(m, keys), i))
    && WriteAll(m, keys).sections == SectionsOf(keys)
    && (keys != [] ==> ReadText(START, WriteAll(m, keys).text).sect == SectOf(keys[|keys|-1]))
  }

  lemma {:induction false} Full(m: Config, keys: seq<string>)
    requires OneLiner(m) && Sorted(keys) && (forall k | k in keys :: k in m) && |Log(m, keys)| == |keys|
    ensures AllExact(m, keys)
    decreases |keys|
  {
    hide AllExact, Exact, ReadText, WriteAll, MapOf, Log, Stored, Stands, Reached, SectOf, Find, Less, WholeLines;
    if keys == [] {
      ExactNone(m);
    } else {
      var front, k := keys[..|keys|-1], keys[|keys|-1];
      assert keys == front + [k] && k in keys;
      LogIs(m, front);
      LogLast(m, keys);
      Full(m, front);
      FullNext(m, front, k);
    }
  }

  lemma ExactNone(m: Config)
    ensures AllExact(m, [])
  {
    NoSections();
  }

  lemma FullNext(m: Config, front: seq<string>, k: string)
    requires OneLiner(m) && Sorted(front + [k]) && (forall x | x in front + [k] :: x in m)
    requires |Log(m, front + [k])| == |front + [k]|
    requires (forall x | x in front :: x in m) && AllExact(m, front)
    ensures AllExact(m, front + [k])
  {
    hide ReadText, ReadLine, WriteEntry, WriteAll, MapOf, Log, Stored, Stands, SectOf, SectionsOf, WholeLines, Less,
         Exact;
    var keys := front + [k];
    assert keys[..|front|] == front && k in keys;
    LogLast(m, keys);
    LogIs(m, front);
    ReadNext(m, front, k);
    forall i | 0 <= i < |front|
      ensures Exact(m, keys, Log(m, keys), i)
    {
      ExactStill(m, front, k, i);
    }
  }

  lemma ExactStill(m: Config, front: seq<string>, k: string, i: nat)
    requires (forall x | x in front + [k] :: x in m) && (forall x | x in front :: x in m)
    requires |Log(m, front)| == |front| && |Log(m, front + [k])| == |front| + 1 && Log(m, front) <= Log(m, front + [k])
    requires i < |front| && front[i] in m && Exact(m, front, Log(m, front), i)
    ensures Exact(m, front + [k], Log(m, front + [k]), i)
  {
    hide Log, Stands, Find;
    assert (front + [k])[i] == front[i] && Log(m, front + [k])[i] == Log(m, front)[i];
  }

  /** The last entry. */
  lemma ReadNext(m: Config, front: seq<string>, k: string)
    requires OneLiner(m) && Sorted(front + [k]) && (forall x | x in front + [k] :: x in m)
    requires |Log(m, front + [k])| == |front| + 1
    requires (forall x | x in front :: x in m) && k in m && AllExact(m, front)
    ensures Exact(m, front + [k], Log(m, front + [k]), |front|)
    ensures WriteAll(m, front + [k]).sections == SectionsOf(front + [k])
    ensures ReadText(START, WriteAll(m, front + [k]).text).sect == SectOf(k)
  {
    hide ReadText, ReadLine, WriteEntry, MapOf, Log, Stored, Stands, SectOf, SectionsOf, WholeLines, Less, Exact;
    var keys := front + [k];
    assert keys[..|front|] == front;
    LogIs(m, front);
    LogLast(m, keys);
    var o, loc := WriteAll(m, front), Find(k, MIDDLE, 0).value;
    var sect, key := k[..loc], k[loc+|MIDDLE|..];
    SectIs(k);
    SectionsMore(front, k);
    WriteIs(o, k, m[k]);
    if sect in o.sections {
      SectionStill(m, front, k);
    }
    var st := Reached(o, sect);
    assert Unbroken(k) && Unbroken(m[k]);
    EntryLogged(o, k, m[k], Log(m, front));
    ExactOne(sect, key, m[k], st);
    BeginsWith(k);
    StoredIs(st, key + "=" + m[k]);
    ExactLast(m, keys, Log(m, keys), Stored(st, key + "=" + m[k])[0]);
  }

  lemma ExactLast(m: Config, keys: seq<string>, log: seq<(string, string)>, e: (string, string))
    requires 0 < |keys| == |log| && keys[|keys|-1] in m && log[|log|-1] == e
    requires var k := keys[|keys|-1];
      && Find(k, MIDDLE, 0).Some?
      && var loc := Find(k, MIDDLE, 0).value;
         && k[..loc] != "" && |e.0| <= |k| && (|e.0| == |k| ==> e.0 == k)
         && (e == (k, m[k]) ==> Stands(k[loc+|MIDDLE|..], m[k]))
    ensures Exact(m, keys, log, |keys| - 1)
  {
    hide Stands, Find;
  }

  lemma NoSections()
    ensures SectionsOf([]) == {}
  {
  }

  lemma SectIs(k: string)
    requires Find(k, MIDDLE, 0).Some?
    ensures SectOf(k) == k[..Find(k, MIDDLE, 0).value]
  {
  }

  /** The last entry has stored something, and so have those before it. */
  lemma LogLast(m: Config, keys: seq<string>)
    requires keys != [] && (forall k | k in keys :: k in m) && |Log(m, keys)| == |keys|
    requires |Log(m, keys[..|keys|-1])| <= |keys| - 1
    ensures var front, k := keys[..|keys|-1], keys[|keys|-1];
            && |Log(m, front)| == |front| && Find(k, MIDDLE, 0).Some?
            && var loc := Find(k, MIDDLE, 0).value;
               var more := Stored(Reached(WriteAll(m, front), k[..loc]), k[loc+|MIDDLE|..] + "=" + m[k]);
               |more| == 1 && Log(m, keys) == Log(m, front) + more
  {
    hide Reached, SectionOf, Entry, Trim;
  }

  /** A section that was met before was met just now. */
  lemma SectionStill(m: Config, front: seq<string>, k: string)
    requires Sorted(front + [k]) && (forall x | x in front + [k] :: x in m)
    requires front != [] && Find(k, MIDDLE, 0).Some? && SectOf(k) in SectionsOf(front)
    requires |Log(m, front)| == |front| && forall i :: 0 <= i < |front| ==> Exact(m, front, Log(m, front), i)
    ensures SectOf(front[|front|-1]) == SectOf(k)
  {
    hide Less, SectOf, Log, Stands;
    SectionsMore(front, k);
    var all := front + [k];
    var j :| 0 <= j < |front| && SectOf(front[j]) == SectOf(k);
    if j < |front| - 1 {
      assert Less(all[j], all[|front|-1]) && Less(all[|front|-1], all[|front|]);
      assert Exact(m, front, Log(m, front), j);
      assert front[j] in all && k in all;
      SectionsTogether(front[j], front[|front|-1], k);
    }
  }

  lemma {:induction false} LessNotSelf(a: string)
    ensures !Less(a, a)
    decreases |a|
  {
    if a != "" {
      LessNotSelf(a[1..]);
    }
  }

  lemma SortedOnce(keys: seq<string>)
    requires Sorted(keys)
    ensures NoDup(keys)
  {
    hide Less;
    forall i, j | 0 <= i < j < |keys|
      ensures keys[i] != keys[j]
    {
      LessNotSelf(keys[i]);
    }
  }

  lemma CountKeys(m: Config, keys: seq<string>)
    requires NoDup(keys) && forall k :: k in keys <==> k in m
    ensures |keys| == |m|
  {
    KeysCount(keys, m.Keys);
  }

  lemma {:induction false} KeysCount(keys: seq<string>, S: set<string>)
    requires NoDup(keys) && forall k :: k in keys <==> k in S
    ensures |keys| == |S|
    decreases |keys|
  {
    if keys == [] {
      assert S == {};
    } else {
      var front, k := keys[..|keys|-1], keys[|keys|-1];
      assert forall x :: x in front <==> x in S - {k};
      KeysCount(front, S - {k});
    }
  }

  /** A map that comes back has lost no entry on the way. */
  lemma NoneLost(m: Config, keys: seq<string>)
    requires Sorted(keys) && (forall k :: k in keys <==> k in m) && OneLiner(m) && MapOf(Log(m, keys)) == m
    ensures |Log(m, keys)| == |keys| && NoDup(keys) && NoDup(Keys(Log(m, keys)))
    ensures forall k :: k in Keys(Log(m, keys)) <==> k in keys
    ensures forall i :: 0 <= i < |keys| ==> var e := Log(m, keys)[i]; e.0 in m && e.1 == m[e.0]
  {
    hide ReadText, WriteAll, MapOf, Log, NoDup, Sorted;
    LogIs(m, keys);
    var log := Log(m, keys);
    MapOfCount(log);
    SortedOnce(keys);
    CountKeys(m, keys);
    assert forall i :: 0 <= i < |log| ==> Keys(log)[i] in Keys(log);
  }

  /** So each line has stored its own entry. */
  lemma EachOwn(m: Config, keys: seq<string>)
    requires Sorted(keys) && (forall k :: k in keys <==> k in m) && OneLiner(m) && MapOf(Log(m, keys)) == m
    ensures |Log(m, keys)| == |keys|
    ensures forall i :: 0 <= i < |keys| ==> Exact(m, keys, Log(m, keys), i) && Log(m, keys)[i] == (keys[i], m[keys[i]])
  {
    hide ReadText, WriteAll, MapOf, Log, Stands, SectOf, NoDup, Length, Sorted;
    NoneLost(m, keys);
    Full(m, keys);
    var log := Log(m, keys);
    SameLength(Keys(log), keys);
    forall i | 0 <= i < |keys|
      ensures |Keys(log)[i]| <= |keys[i]|
    {
      assert Exact(m, keys, log, i);
    }
    EachAsLong(Keys(log), keys);
    forall i | 0 <= i < |keys|
      ensures log[i] == (keys[i], m[keys[i]])
    {
      assert Exact(m, keys, log, i);
      assert |Keys(log)[i]| == |keys[i]| && Keys(log)[i] == log[i].0;
    }
  }

  /** Loading what was saved gives the same map exactly if every entry is
      clean. */
  lemma SaveLoadExactly(m: Config, keys: seq<string>)
    requires Sorted(keys) && (forall k :: k in keys <==> k in m)
    ensures ReadText(START, WriteAll(m, keys).text).config == m <==> IniTheorems.Clean(m)
  {
    hide ReadText, WriteAll, MapOf, Log, Stands, SectOf, CleanEntry, Sorted;
    if IniTheorems.Clean(m) {
      SaveLoad(m, keys);
    }
    if ReadText(START, WriteAll(m, keys).text).config == m {
      TextOneLine(START, WriteAll(m, keys).text);
      LogIs(m, keys);
      EachOwn(m, keys);
      forall k | k in m
        ensures CleanEntry(k, m[k])
      {
        var i :| 0 <= i < |keys| && keys[i] == k;
        assert Exact(m, keys, Log(m, keys), i);
        ExactClean(m, k);
      }
    }
  }

  lemma PartsOfKey(k: string)
    requires k == MapKey("s", "k")
    ensures Find(k, MIDDLE, 0) == Some(1) && k[..1] == "s" && k[1+|MIDDLE|..] == "k"
  {
    hide Find;
    SectionFound("s", "k");
  }

  lemma NulLine(st: State)
    requires st.sect == "s"
    ensures ReadLine(st, "k=a\0b") == st.(config := st.config[MapKey("s", "k") := "a"])
  {
    hide ReadLine, MapKey;
    var line := "k=a\0b";
    assert line[..3] == "k" + "=" + "a" && line[3] == NUL && NUL !in line[..3];
    FirstIs(line, NUL, 3);
    CutOnce(st, line);
    EntryRead(st, "k", "a");
  }

  lemma NulInFile(k: string)
    requires k == MapKey("s", "k")
    ensures ReadText(START, WriteEntry(Output("", {}), k, "a\0b").text).config == map[k := "a"]
  {
    hide ReadText, ReadLine, WriteEntry, Find, Heading, MapKey;
    var o, st := Output("", {}), START.(sect := "s");
    PartsOfKey(k);
    WriteIs(o, k, "a\0b");
    NothingFound(START);
    HeadingReached(o, "s");
    assert "" + Heading(o, "s") == Heading(o, "s");
    ReadConcat(START, Heading(o, "s"), Line("k", "a\0b"));
    assert "k" + "=" + "a\0b" == "k=a\0b";
    OneLine(st, "k=a\0b");
    NulLine(st);
  }

  lemma NulNotClean(m: Config, k: string)
    requires k == MapKey("s", "k") && k in m && m[k] == "a\0b"
    ensures !IniTheorems.Clean(m)
  {
    hide Find, MapKey;
    PartsOfKey(k);
    assert ("k" + m[k])[2] == NUL;
    assert !CleanEntry(k, m[k]);
  }

  /** A value is cut at its first NUL: the map that comes back differs. */
  lemma NulCut()
    ensures var m := map[MapKey("s", "k") := "a\0b"];
            && !IniTheorems.Clean(m)
            && ReadText(START, WriteAll(m, [MapKey("s", "k")]).text).config == map[MapKey("s", "k") := "a"]
  {
    hide ReadText, ReadLine, WriteEntry, Find, Stands, Header, MapKey;
    var k, m := MapKey("s", "k"), map[MapKey("s", "k") := "a\0b"];
    NulInFile(k);
    assert [k][..0] == [];
    assert WriteAll(m, [k]) == WriteEntry(Output("", {}), k, m[k]);
    NulNotClean(m, k);
  }

  lemma ExactClean(m: Config, k: string)
    requires k in m && OneLiner(m) && Find(k, MIDDLE, 0).Some?
    requires var loc := Find(k, MIDDLE, 0).value; k[..loc] != "" && Stands(k[loc+|MIDDLE|..], m[k])
    ensures CleanEntry(k, m[k])
  {
    hide Stands;
    SectIs(k);
  }
}
