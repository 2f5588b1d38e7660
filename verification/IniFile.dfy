/** libspider/IniFile.cpp: the class, with the file it is kept in. */
module IniFiles {
  import opened Chars
  import opened CStrings
  import opened IniFormat
  import opened IniTheorems
  import opened IniExact
  import opened Options

  const MAX_CONFIG_LINE_LENGTH: nat := 1024

  // ----- key order --------------------------------------------------------

  lemma {:induction false} LessTotal(a: string, b: string)
    ensures a == b || Less(a, b) || Less(b, a)
    decreases |a|
  {
    if a != "" && b != "" && a[0] == b[0] {
      LessTotal(a[1..], b[1..]);
      assert a == [a[0]] + a[1..] && b == [b[0]] + b[1..];
    }
  }

  lemma {:induction false} LessTransitive(a: string, b: string, c: string)
    requires Less(a, b) && Less(b, c)
    ensures Less(a, c)
    decreases |a|
  {
    if a != "" && b != "" && c != "" && a[0] == b[0] && b[0] == c[0] {
      LessTransitive(a[1..], b[1..], c[1..]);
    }
  }

  /** A set of keys has a first one. */
  lemma {:induction false} FirstExists(keys: set<string>) returns (k: string)
    requires keys != {}
    ensures k in keys && forall j | j in keys :: j == k || Less(k, j)
    decreases |keys|
  {
    k :| k in keys;
    var rest := keys - {k};
    if rest != {} {
      var m := FirstExists(rest);
      LessTotal(k, m);
      if Less(m, k) {
        k := m;
      } else {
        forall j | j in keys && j != k
          ensures Less(k, j)
        {
          if j != m {
            LessTransitive(k, m, j);
          }
        }
      }
    }
  }

  /** Every line fits into the line buffer. */
  predicate ShortLines(text: string)
    decreases |text|
  {
    match StrChr(text, '\n')
    case None => |text| < MAX_CONFIG_LINE_LENGTH
    case Some(k) => k < MAX_CONFIG_LINE_LENGTH && ShortLines(text[k+1..])
  }

  /** Header and entry fit into the line buffer. */
  predicate ShortEntry(mapkey: string, value: string) {
    match Find(mapkey, MIDDLE, 0)
    case None => true
    case Some(loc) =>
      && loc + 2 < MAX_CONFIG_LINE_LENGTH
      && |mapkey| - loc - |MIDDLE| + 1 + |value| < MAX_CONFIG_LINE_LENGTH
  }

  ghost predicate ShortEntries(m: Config) {
    forall k {:trigger m[k]} | k in m :: ShortEntry(k, m[k])
  }

  lemma {:induction false} ShortConcat(a: string, b: string)
    requires WholeLines(a) && ShortLines(a) && ShortLines(b)
    ensures ShortLines(a + b)
    decreases |a|
  {
    hide StrChr;
    if a == "" {
      assert a + b == b;
    } else {
      var k := StrChr(a, '\n').value;
      assert (a + b)[..k] == a[..k] && (a + b)[k+1..] == a[k+1..] + b;
      FirstIs(a + b, '\n', k);
      ShortConcat(a[k+1..], b);
    }
  }

  lemma ShortOne(line: string)
    requires '\n' !in line && |line| < MAX_CONFIG_LINE_LENGTH
    ensures ShortLines(line + "\n") && WholeLines(line + "\n")
  {
    hide StrChr;
    var text := line + "\n";
    assert text[..|line|] == line && text[|line|+1..] == "";
    FirstIs(text, '\n', |line|);
    NowhereIs("", '\n');
  }

  lemma WriteEntryShort(o: Output, mapkey: string, value: string)
    requires CleanEntry(mapkey, value) && ShortEntry(mapkey, value) && WholeLines(o.text) && ShortLines(o.text)
    ensures var p := WriteEntry(o, mapkey, value); WholeLines(p.text) && ShortLines(p.text)
  {
    hide ShortLines, CleanSection, Stands, Header, WriteEntry, Heading;
    var loc := Find(mapkey, MIDDLE, 0).value;
    var sect, key := mapkey[..loc], mapkey[loc+|MIDDLE|..];
    WriteIs(o, mapkey, value);
    HeadingShort(o, sect);
    ShortConcat(o.text, Heading(o, sect));
    JoinedLines(o.text, Heading(o, sect));
    EntryLine(key, value);
    ShortOne(key + "=" + value);
    ShortConcat(o.text + Heading(o, sect), Line(key, value));
    JoinedLines(o.text + Heading(o, sect), Line(key, value));
  }

  lemma HeadingShort(o: Output, sect: string)
    requires CleanSection(sect) && |sect| + 2 < MAX_CONFIG_LINE_LENGTH
    ensures WholeLines(Heading(o, sect)) && ShortLines(Heading(o, sect))
  {
    hide ShortLines, CleanSection;
    EmptyShort();
    SectionNamed(sect);
    if sect !in o.sections {
      NoNewline(sect);
      ShortOne(Header(sect));
      ShortOne("");
      assert "" + "\n" == "\n" && "" + (Header(sect) + "\n") == Header(sect) + "\n";
      ShortConcat("\n", Header(sect) + "\n");
    }
  }

  lemma EmptyShort()
    ensures ShortLines("")
  {
    NowhereIs("", '\n');
  }

  lemma {:induction false} SavedShort(m: Config, keys: seq<string>)
    requires Clean(m) && ShortEntries(m) && forall k | k in keys :: k in m
    ensures var o := WriteAll(m, keys); WholeLines(o.text) && ShortLines(o.text)
    decreases |keys|
  {
    hide ShortLines, CleanEntry, ShortEntry, WriteEntry;
    if keys == [] {
      EmptyShort();
    } else {
      var k := keys[|keys|-1];
      SavedShort(m, keys[..|keys|-1]);
      assert CleanEntry(k, m[k]) && ShortEntry(k, m[k]);
      WriteEntryShort(WriteAll(m, keys[..|keys|-1]), k, m[k]);
    }
  }

  class IniFile {
    var filename: string
    var config: Config
    // What is in the file.
    var file: string

    constructor (filename: string, file: string)
      requires ShortLines(file)
      ensures this.filename == filename && this.file == file
      ensures config == if filename == "" then map[] else ReadText(START, file).config
    {
      this.filename, this.file, config := filename, file, map[];
      new;
      LoadConfig();
    }

    predicate Valid()
      reads this
    {
      filename != ""
    }

    /** read, for strings. */
    method ReadString(sect: string, key: string) returns (ok: bool, str: string)
      ensures ok <==> Valid() && key != "" && MapKey(sect, key) in config && config[MapKey(sect, key)] != ""
      ensures str == if ok then config[MapKey(sect, key)] else ""
    {
      if !Valid() || key == "" {
        return false, "";
      }
      var mapkey := sect + MIDDLE + key;
      if mapkey in config && |config[mapkey]| > 0 {
        return true, config[mapkey];
      }
      return false, "";
    }

    /** write, for strings. */
    method WriteString(sect: string, key: string, value: string) returns (ok: bool)
      modifies this`config
      ensures ok <==> Valid() && key != ""
      ensures config == if ok then old(config)[MapKey(sect, key) := value] else old(config)
    {
      if !Valid() || key == "" {
        return false;
      }
      config := config[sect + MIDDLE + key := value];
      return true;
    }

    method Erase(sect: string, key: string) returns (ok: bool)
      modifies this`config
      ensures ok <==> Valid() && MapKey(sect, key) in old(config)
      ensures config == if Valid() then old(config) - {MapKey(sect, key)} else old(config)
    {
      if !Valid() {
        return false;
      }
      var mapkey := sect + MIDDLE + key;
      ok := mapkey in config;
      config := config - {mapkey};
    }

    /** save_config: the entries in key order. */
    method SaveConfig()
      modifies this`file
      ensures if Valid() then Saved(config, file) else file == old(file)
    {
      hide Less, WriteEntry;
      if !Valid() {
        return;
      }
      var firstTry, sectmap, os := true, {}, "";
      var rest := config.Keys;
      ghost var keys: seq<string> := [];
      while rest != {}
        invariant rest <= config.Keys && (forall k :: k in keys <==> k in config && k !in rest)
        invariant Sorted(keys) && (forall j, k :: 0 <= j < |keys| && k in rest ==> Less(keys[j], k))
        invariant Output(os, sectmap) == WriteAll(config, keys) && (firstTry <==> sectmap == {})
        decreases |rest|
      {
        ghost var first := FirstExists(rest);
        var k :| k in rest && forall j | j in rest :: j == k || Less(k, j);
        assert (keys + [k])[..|keys|] == keys;
        os, sectmap, firstTry := SaveEntry(k, config[k], os, sectmap, firstTry);
        rest := rest - {k};
        keys := keys + [k];
      }
      file := os;
      SavedIs(config, keys, file);
    }

    /** load_config and parse_config. */
    method LoadConfig()
      requires ShortLines(file)
      modifies this`config
      ensures config == if Valid() then ReadText(START, file).config else map[]
    {
      config := map[];
      if filename != "" {
        config := ParseConfig(file);
      }
    }

    /** flush: the map in memory becomes what the file says. It stays what it
        was exactly if its entries are clean. */
    method Flush() returns (ok: bool)
      requires SavesShort(config)
      modifies this`config, this`file
      ensures ok <==> Valid() && old(config) != map[]
      ensures !ok ==> config == old(config) && file == old(file)
      ensures ok ==> Saved(old(config), file) && config == ReadText(START, file).config
      ensures ok ==> (config == old(config) <==> Clean(old(config)))
    {
      hide Clean, ReadText, Saved, ShortLines, SavesShort;
      if !Valid() {
        return false;
      }
      if |config| > 0 {
        SaveConfig();
        SavedBack(config, file);
        LoadConfig();
        return true;
      }
      return false;
    }
  }

  /** The lines of the map, when it is written, fit into the line buffer. */
  ghost predicate SavesShort(m: Config) {
    forall keys {:trigger KeyOrder(m, keys)} | KeyOrder(m, keys) :: ShortLines(WriteAll(m, keys).text)
  }

  /** text is the map, written in key order. */
  ghost predicate Saved(m: Config, text: string) {
    exists keys :: KeyOrder(m, keys) && text == WriteAll(m, keys).text
  }

  ghost predicate KeyOrder(m: Config, keys: seq<string>) {
    Sorted(keys) && forall k :: k in keys <==> k in m
  }

  lemma SavedIs(m: Config, keys: seq<string>, text: string)
    requires Sorted(keys) && (forall k :: k in keys <==> k in m) && text == WriteAll(m, keys).text
    ensures Saved(m, text)
  {
    assert KeyOrder(m, keys);
  }

  lemma SavedBack(m: Config, text: string)
    requires Saved(m, text) && SavesShort(m)
    ensures ShortLines(text)
    ensures ReadText(START, text).config == m <==> Clean(m)
  {
    hide Clean, ReadText, ShortLines, Sorted;
    var keys :| KeyOrder(m, keys) && text == WriteAll(m, keys).text;
    SaveLoadExactly(m, keys);
  }

  /** Clean entries that fit are written in lines that fit. */
  lemma CleanSavesShort(m: Config)
    requires Clean(m) && ShortEntries(m)
    ensures SavesShort(m)
  {
    hide Clean, ShortEntries, ShortLines, Sorted;
    forall keys {:trigger KeyOrder(m, keys)} | KeyOrder(m, keys)
      ensures ShortLines(WriteAll(m, keys).text)
    {
      SavedShort(m, keys);
    }
  }

  /** The body of save_config's loop. */
  method SaveEntry(mapkey: string, val: string, os0: string, sections: set<string>, first: bool)
    returns (os: string, sectmap: set<string>, firstTry: bool)
    requires first <==> sections == {}
    ensures Output(os, sectmap) == WriteEntry(Output(os0, sections), mapkey, val)
    ensures firstTry <==> sectmap == {}
  {
    hide Find;
    os, sectmap, firstTry := os0, sections, first;
    var loc := Find(mapkey, MIDDLE, 0);
    if loc.Some? {
      var sect, key := mapkey[..loc.value], mapkey[loc.value+|MIDDLE|..];
      if sect in sectmap {
        os := os + Line(key, val);
      } else {
        sectmap := sectmap + {sect};
        if !firstTry {
          os := os + "\n" + (Header(sect) + "\n");
          os := os + Line(key, val);
        } else {
          os := os + (Header(sect) + "\n");
          os := os + Line(key, val);
          firstTry := false;
        }
      }
    }
  }

  /** parse_config. */
  method ParseConfig(text: string) returns (config: Config)
    requires ShortLines(text)
    ensures config == ReadText(START, text).config
  {
    hide ReadLine, StrChr;
    config := map[];
    var strsect, eof := "", false;
    var pos: nat := 0;
    assert text[0..] == text;
    while !eof
      invariant pos <= |text| && ShortLines(text[pos..])
      invariant if eof then config == ReadText(START, text).config
                else ReadText(State(strsect, config), text[pos..]) == ReadText(START, text)
      decreases !eof, |text| - pos
    {
      var k := StrChr(text[pos..], '\n');
      if k.None? {
        eof := true;
      } else {
        var confLine := text[pos..][..k.value];
        assert |confLine| < MAX_CONFIG_LINE_LENGTH && text[pos..][k.value+1..] == text[pos+k.value+1..];
        pos := pos + k.value + 1;
        strsect, config := ParseLine(confLine, strsect, config);
      }
    }
  }

  /** At most one entry has been added or changed. */
  ghost predicate OneEntry(before: Config, after: Config) {
    after == before || exists k {:trigger after[k]} :: k in after && after == before[k := after[k]]
  }

  lemma LineChanges(st: State, line: string)
    ensures ReadLine(st, line).sect != st.sect ==> ReadLine(st, line).config == st.config
    ensures OneEntry(st.config, ReadLine(st, line).config)
  {
    hide Trim, CString, SectionOf, Entry;
    var t := Trim(CString(line));
    if SectionOf(t).None? && st.sect != "" && Entry(t).Some? {
      var e := Entry(t).value;
      assert ReadLine(st, line).config[MapKey(st.sect, e.0)] == e.1;
    }
  }

  lemma NameUncut(name: string)
    requires NUL !in Header(name)
    ensures NUL !in name
  {
    assert Header(name)[1..1+|name|] == name;
  }

  lemma HeaderLine(st: State, line: string)
    ensures forall name {:trigger Header(name)} :: CString(line) == Header(name) ==>
              ReadLine(st, line) == st.(sect := name)
  {
    hide ReadLine, Header, CString;
    forall name {:trigger Header(name)} | CString(line) == Header(name)
      ensures ReadLine(st, line) == st.(sect := name)
    {
      NameUncut(name);
      CutOnce(st, line);
      HeaderRead(st, name);
    }
  }

  lemma CleanLine(st: State, line: string)
    ensures forall k, v {:trigger Stands(k, v)} :: CString(line) == k + "=" + v && Stands(k, v) && st.sect != "" ==>
              ReadLine(st, line) == st.(config := st.config[MapKey(st.sect, k) := v])
  {
    hide ReadLine, Stands, MapKey, CString;
    CutOnce(st, line);
    forall k, v {:trigger Stands(k, v)} | CString(line) == k + "=" + v && Stands(k, v) && st.sect != ""
      ensures ReadLine(st, line) == st.(config := st.config[MapKey(st.sect, k) := v])
    {
      EntryRead(st, k, v);
    }
  }

  /** The body of parse_config's loop. */
  method ParseLine(confLine: string, sect: string, before: Config) returns (strsect: string, config: Config)
    ensures State(strsect, config) == ReadLine(State(sect, before), confLine)
    ensures strsect != sect ==> config == before
    ensures OneEntry(before, config)
    ensures forall name {:trigger Header(name)} :: CString(confLine) == Header(name) ==>
              strsect == name && config == before
    ensures forall k, v {:trigger Stands(k, v)} :: CString(confLine) == k + "=" + v && Stands(k, v) && sect != "" ==>
              strsect == sect && config == before[MapKey(sect, k) := v]
  {
    hide StrChr, StrRChr, Entry, Trim, CString, Stands, Header, OneEntry;
    LineChanges(State(sect, before), confLine);
    HeaderLine(State(sect, before), confLine);
    CleanLine(State(sect, before), confLine);
    strsect, config := sect, before;
    var line := Trim(CString(confLine));
    var first, last := StrChr(line, '['), StrRChr(line, ']');
    if first.Some? && last.Some? && first.value != last.value + 1 {
      strsect := if first.value < last.value then line[first.value+1..last.value] else line[first.value+1..];
      return;
    }
    if strsect == "" {
      return;
    }
    var ok, strkey, value := SplitEntry(line);
    if ok {
      var mapkey := strsect + MIDDLE;
      mapkey := mapkey + strkey;
      config := config[mapkey := value];
    }
  }

  /** Key and value of a line, if it has both. */
  method SplitEntry(line: string) returns (ok: bool, strkey: string, value: string)
    ensures if ok then Entry(line) == Some((strkey, value)) else Entry(line).None?
  {
    hide StrChr, FirstNotOf, LastNotOf, Value;
    ok, strkey, value := false, "", "";
    var eq := StrChr(line, '=');
    if eq.None? {
      return;
    }
    var s1, s2 := line[..eq.value], line[eq.value+1..];
    var first, last := FirstNotOf(s1, BLANKS), LastNotOf(s1, BLANKS);
    if first.None? || last.None? {
      return;
    }
    strkey := s1[first.value..last.value+1];
    ok, value := TakeValue(s2);
  }

  /** value is s without the blanks around it. */
  ghost predicate Bare(s: string, value: string) {
    exists i, j :: 0 <= i < j <= |s| && value == s[i..j] && s[i] !in BLANKS && s[j-1] !in BLANKS
                   && (forall k :: 0 <= k < i ==> s[k] in BLANKS) && (forall k :: j <= k < |s| ==> s[k] in BLANKS)
  }

  lemma ValueFacts(s: string)
    ensures Value(s).Some? ==>
      var v := Value(s).value; v != "" && v[0] !in BLANKS && v[|v|-1] !in BLANKS
    ensures (forall k {:trigger Mark(s, k)} :: !Mark(s, k)) ==>
      if Value(s).Some? then Bare(s, Value(s).value) else forall c | c in s :: c in BLANKS
  {
    hide CommentAt, Mark, Find, FirstNotOf, LastNotOf;
    match FirstNotOf(s, BLANKS)
    case None =>
    case Some(n) =>
      var cut := CutComment(s, n);
      if LastNotOf(cut, BLANKS).Some? {
        var last := LastNotOf(cut, BLANKS).value;
        assert cut[last] == s[last];
      }
      if forall k {:trigger Mark(s, k)} :: !Mark(s, k) {
        NoComment(s, n);
        var j := LastNotOf(s, BLANKS).value + 1;
        assert s[n..j] == Value(s).value && s[j-1] !in BLANKS;
      }
  }

  /** What is left of a value without its comment and the blanks around it. */
  method TakeValue(s: string) returns (ok: bool, value: string)
    ensures if ok then Value(s) == Some(value) else Value(s).None?
    ensures ok ==> value != "" && value[0] !in BLANKS && value[|value|-1] !in BLANKS
    ensures (forall k {:trigger Mark(s, k)} :: !Mark(s, k)) ==>
              if ok then Bare(s, value) else forall c | c in s :: c in BLANKS
  {
    ValueFacts(s);
    hide FirstNotOf, LastNotOf, CommentAt, Mark, Bare;
    var first := FirstNotOf(s, BLANKS);
    if first.None? {
      return false, "";
    }
    var s2 := s;
    var comment := CommentAt(s, first.value);
    if comment.Some? {
      s2 := s[..comment.value-first.value];
    }
    var last := LastNotOf(s2, BLANKS);
    if last.None? {
      return false, "";
    }
    assert s2[last.value] == s[last.value];
    return true, s2[first.value..last.value+1];
  }
}
