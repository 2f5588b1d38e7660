/** libspider/IniFile.cpp: the text of a configuration file, on values. */
module IniFormat {
  import opened Chars
  import opened CStrings
  import opened Options

  type Config = map<string, string>

  /** Between section and key in the keys of the map. */
  const MIDDLE: string := "_____***_______"

  function MapKey(sect: string, key: string): string {
    sect + MIDDLE + key
  }

  // ----- searches ---------------------------------------------------------

  predicate Occurs(s: string, pat: string, k: int) {
    0 <= k && k + |pat| <= |s| && s[k..k+|pat|] == pat
  }

  /** Where pat stands first, from the i-th character on. */
  function Find(s: string, pat: string, i: nat): (r: Option<nat>)
    requires i <= |s|
    ensures r.Some? ==> i <= r.value && Occurs(s, pat, r.value)
    ensures forall k :: i <= k && (r.None? || k < r.value) ==> !Occurs(s, pat, k)
    decreases |s| - i
  {
    if i + |pat| > |s| then None
    else if Occurs(s, pat, i) then Some(i)
    else if i == |s| then None
    else Find(s, pat, i + 1)
  }

  /** find_first_not_of. */
  function FirstNotOf(s: string, blanks: string): (r: Option<nat>)
    ensures r.Some? ==> r.value < |s| && s[r.value] !in blanks && forall k :: 0 <= k < r.value ==> s[k] in blanks
    ensures r.None? ==> forall k :: 0 <= k < |s| ==> s[k] in blanks
  {
    if s == "" then None
    else if s[0] !in blanks then Some(0)
    else
      match FirstNotOf(s[1..], blanks)
      case None => None
      case Some(k) => Some(k + 1)
  }

  /** find_last_not_of. */
  function LastNotOf(s: string, blanks: string): (r: Option<nat>)
    ensures r.Some? ==> r.value < |s| && s[r.value] !in blanks && forall k :: r.value < k < |s| ==> s[k] in blanks
    ensures r.None? ==> forall k :: 0 <= k < |s| ==> s[k] in blanks
  {
    if s == "" then None
    else if s[|s|-1] !in blanks then Some(|s| - 1)
    else LastNotOf(s[..|s|-1], blanks)
  }

  // ----- reading ----------------------------------------------------------

  const EDGES: string := " \t\n\U{0B}"
  const BLANKS: string := " \t"

  /** What a string is made of when the characters are given as a pointer: all
      that stands in front of the first NUL. */
  function CString(s: string): (r: string)
    ensures r <= s && NUL !in r && (NUL !in s <==> r == s)
  {
    match StrChr(s, NUL) case None => s case Some(k) => s[..k]
  }

  function Trim(s: string): string {
    match FirstNotOf(s, EDGES)
    case None => ""
    case Some(begin) =>
      var last := LastNotOf(s, EDGES).value;
      s[begin..last+1]
  }

  /** A line with brackets opens a section; it need not be well formed. */
  function SectionOf(line: string): Option<string> {
    match StrChr(line, '[')
    case None => None
    case Some(first) =>
      match StrRChr(line, ']')
      case None => None
      case Some(last) =>
        if first == last + 1 then None
        else if first < last then Some(line[first+1..last])
        else Some(line[first+1..])
  }

  /** Where a comment begins: behind a blank, a "#" or "//". */
  function CommentAt(s: string, first: nat): (r: Option<nat>)
    requires first <= |s|
    ensures r.Some? ==> first <= r.value <= |s|
  {
    var a, b, c, d := Find(s, "\t#", first), Find(s, " #", first), Find(s, "\t//", first), Find(s, " //", first);
    if a.Some? then a else if b.Some? then b else if c.Some? then c else d
  }

  /** The text without its comment; the code counts the length from the first
      character that is no blank. */
  function CutComment(s: string, first: nat): (r: string)
    requires first <= |s|
    ensures r <= s
  {
    match CommentAt(s, first)
    case None => s
    case Some(last) => s[..last-first]
  }

  function Value(s: string): Option<string> {
    match FirstNotOf(s, BLANKS)
    case None => None
    case Some(first) =>
      var cut := CutComment(s, first);
      match LastNotOf(cut, BLANKS)
      case None => None
      case Some(last) => assert cut[last] == s[last]; Some(cut[first..last+1])
  }

  function Entry(line: string): Option<(string, string)> {
    match StrChr(line, '=')
    case None => None
    case Some(eq) =>
      var s1 := line[..eq];
      match FirstNotOf(s1, BLANKS)
      case None => None
      case Some(first) =>
        match Value(line[eq+1..])
        case None => None
        case Some(value) => Some((s1[first..LastNotOf(s1, BLANKS).value+1], value))
  }

  datatype State = State(sect: string, config: Config)

  function ReadLine(st: State, text: string): State {
    var line := Trim(CString(text));
    match SectionOf(line)
    case Some(sect) => st.(sect := sect)
    case None =>
      if st.sect == "" then st
      else
        match Entry(line)
        case None => st
        case Some(e) => st.(config := st.config[MapKey(st.sect, e.0) := e.1])
  }

  /** All lines that end in a newline. */
  function ReadText(st: State, text: string): State
    decreases |text|
  {
    match StrChr(text, '\n')
    case None => st
    case Some(k) => ReadText(ReadLine(st, text[..k]), text[k+1..])
  }

  const START: State := State("", map[])

  // ----- writing ----------------------------------------------------------

  /** The order of std::string. */
  predicate Less(a: string, b: string) {
    b != "" && (a == "" || a[0] < b[0] || (a[0] == b[0] && Less(a[1..], b[1..])))
  }

  ghost predicate Sorted(keys: seq<string>) {
    forall i, j :: 0 <= i < j < |keys| ==> Less(keys[i], keys[j])
  }

  /** What has been written, and which sections have a header. */
  datatype Output = Output(text: string, sections: set<string>)

  function Line(key: string, value: string): string {
    key + "=" + value + "\n"
  }

  function Header(sect: string): string {
    "[" + sect + "]"
  }

  function WriteEntry(o: Output, mapkey: string, value: string): Output {
    match Find(mapkey, MIDDLE, 0)
    case None => o
    case Some(loc) =>
      var sect, key := mapkey[..loc], mapkey[loc+|MIDDLE|..];
      if sect in o.sections then o.(text := o.text + Line(key, value))
      else
        Output(o.text + (if o.sections == {} then "" else "\n") + (Header(sect) + "\n") + Line(key, value),
               o.sections + {sect})
  }

  function WriteAll(m: Config, keys: seq<string>): Output
    requires forall k | k in keys :: k in m
  {
    if keys == [] then Output("", {})
    else WriteEntry(WriteAll(m, keys[..|keys|-1]), keys[|keys|-1], m[keys[|keys|-1]])
  }
}
