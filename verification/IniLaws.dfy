/** libspider/IniFile.cpp: how lines with blanks, brackets in any order and keys
    in order are taken, told by characters and places. */
module IniLaws {
  import opened Chars
  import opened CStrings
  import opened IniFormat
  import opened IniTheorems
  import opened Options

  predicate All(s: string, chars: string) {
    forall c :: c in s ==> c in chars
  }

  lemma FirstBehind(a: string, rest: string, blanks: string)
    requires All(a, blanks) && rest != "" && rest[0] !in blanks
    ensures FirstNotOf(a + rest, blanks) == Some(|a|)
  {
    hide FirstNotOf;
    var s := a + rest;
    assert s[|a|] == rest[0];
    forall k | 0 <= k < |a|
      ensures s[k] in blanks
    {
      assert s[k] == a[k] && a[k] in a;
    }
  }

  lemma LastBefore(front: string, d: string, blanks: string)
    requires All(d, blanks) && front != "" && front[|front|-1] !in blanks
    ensures LastNotOf(front + d, blanks) == Some(|front| - 1)
  {
    hide LastNotOf;
    var s := front + d;
    assert s[|front|-1] == front[|front|-1];
    forall k | |front| <= k < |s|
      ensures s[k] in blanks
    {
      assert s[k] == d[k-|front|] && d[k-|front|] in d;
    }
  }

  lemma Trimmed(a: string, mid: string, d: string)
    requires All(a, EDGES) && All(d, EDGES) && mid != "" && mid[0] !in EDGES && mid[|mid|-1] !in EDGES
    ensures Trim(a + mid + d) == mid
  {
    hide FirstNotOf, LastNotOf;
    assert a + mid + d == a + (mid + d) && (a + mid)[|a + mid|-1] == mid[|mid|-1];
    FirstBehind(a, mid + d, EDGES);
    LastBefore(a + mid, d, EDGES);
    assert (a + mid + d)[|a|..|a|+|mid|] == mid;
  }

  /** No comment begins in the value, so none begins behind the blanks in front
      of it. */
  lemma NoneBehind(c: string, value: string)
    requires CommentAt(value, 0).None?
    ensures CommentAt(c + value, |c|).None?
  {
    NoPattern(c, value, "\t#");
    NoPattern(c, value, " #");
    NoPattern(c, value, "\t//");
    NoPattern(c, value, " //");
  }

  lemma OccursBehind(c: string, value: string, pat: string, k: nat)
    requires |c| <= k
    ensures Occurs(c + value, pat, k) == Occurs(value, pat, k - |c|)
  {
    if k + |pat| <= |c + value| {
      assert (c + value)[k..k+|pat|] == value[k-|c|..k-|c|+|pat|];
    }
  }

  lemma NoPattern(c: string, value: string, pat: string)
    requires Find(value, pat, 0).None?
    ensures Find(c + value, pat, |c|).None?
  {
    hide Find, Occurs;
    forall k | |c| <= k
      ensures !Occurs(c + value, pat, k)
    {
      OccursBehind(c, value, pat, k);
    }
  }

  lemma ValueBehind(c: string, value: string)
    requires All(c, BLANKS) && CleanValue(value)
    ensures Value(c + value) == Some(value)
  {
    hide CommentAt, FirstNotOf, LastNotOf;
    FirstBehind(c, value, BLANKS);
    NoneBehind(c, value);
    assert (c + value)[|c + value|-1] == value[|value|-1];
    LastBefore(c + value, "", BLANKS);
    assert c + value + "" == c + value && (c + value)[|c|..|c + value|] == value;
  }

  lemma EntryAround(key: string, b: string, c: string, value: string)
    requires CleanKey(key) && CleanValue(value) && All(b, BLANKS) && All(c, BLANKS)
    ensures Entry(key + b + "=" + (c + value)) == Some((key, value))
  {
    hide StrChr, Value, CommentAt, FirstNotOf, LastNotOf;
    var front, line := key + b, key + b + "=" + (c + value);
    NotIn(b, BLANKS, '=');
    assert line[..|front|] == front && line[|front|] == '=' && line[|front|+1..] == c + value;
    FirstIs(line, '=', |front|);
    ValueBehind(c, value);
    assert front == "" + front;
    FirstBehind("", front, BLANKS);
    LastBefore(key, b, BLANKS);
    assert front[0..|key|] == key;
  }

  /** Blanks around the key, around the value and around the line play no part. */
  lemma BlanksIgnored(st: State, a: string, key: string, b: string, c: string, value: string, d: string)
    requires st.sect != "" && CleanKey(key) && CleanValue(value) && NUL !in key + value
    requires All(a, EDGES) && All(b, BLANKS) && All(c, BLANKS) && All(d, EDGES)
    requires '[' !in key + value
    ensures ReadLine(st, a + (key + b + "=" + (c + value)) + d)
         == st.(config := st.config[MapKey(st.sect, key) := value])
  {
    hide Trim, CString, Entry, SectionOf, CommentAt, MapKey;
    var mid := key + b + "=" + (c + value);
    assert mid[0] == key[0] && mid[|mid|-1] == value[|value|-1];
    NotIn(a, EDGES, NUL);
    NotIn(b, BLANKS, NUL);
    NotIn(c, BLANKS, NUL);
    NotIn(d, EDGES, NUL);
    NotIn(b, BLANKS, '[');
    NotIn(c, BLANKS, '[');
    assert NUL !in a + mid + d && '[' !in mid;
    Trimmed(a, mid, d);
    HeadingIs(mid);
    EntryAround(key, b, c, value);
  }

  lemma NotIn(s: string, chars: string, c: char)
    requires All(s, chars) && c !in chars
    ensures c !in s
  {
  }

  /** What opens a section, and what its name is: from behind the first '[' up
      to the last ']', or to the end if that stands in front. */
  lemma SectionTaken(line: string, i: nat, j: nat)
    requires i < |line| && line[i] == '[' && '[' !in line[..i]
    requires j < |line| && line[j] == ']' && ']' !in line[j+1..]
    ensures SectionOf(line) ==
              if i == j + 1 then None else Some(if i < j then line[i+1..j] else line[i+1..])
  {
    hide StrChr, StrRChr;
    FirstIs(line, '[', i);
    LastIs(line, ']', j);
  }

  /** The order in which the keys are written: by the first character in which
      they differ, and the shorter first. */
  ghost predicate ComesBefore(a: string, b: string, k: nat) {
    && k <= |a| && k <= |b| && a[..k] == b[..k]
    && ((k == |a| && k < |b|) || (k < |a| && k < |b| && a[k] < b[k]))
  }

  lemma {:induction false} LessIs(a: string, b: string)
    ensures Less(a, b) <==> exists k: nat :: ComesBefore(a, b, k)
    decreases |a|
  {
    if a != "" && b != "" && a[0] == b[0] {
      LessIs(a[1..], b[1..]);
      if k: nat :| ComesBefore(a[1..], b[1..], k) {
        assert a[..k+1] == [a[0]] + a[1..][..k] && b[..k+1] == [b[0]] + b[1..][..k];
        assert ComesBefore(a, b, k + 1);
      }
      if k: nat :| ComesBefore(a, b, k) {
        assert k > 0;
        assert a[1..][..k-1] == a[..k][1..] && b[1..][..k-1] == b[..k][1..];
        assert ComesBefore(a[1..], b[1..], k - 1);
      }
    } else {
      assert a[..0] == b[..0];
      if Less(a, b) {
        assert ComesBefore(a, b, 0);
      }
      if k: nat :| ComesBefore(a, b, k) {
        assert k > 0 ==> a[..k][0] == b[..k][0];
      }
    }
  }
}
