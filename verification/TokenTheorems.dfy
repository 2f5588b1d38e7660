/** What holds of every run of the tokenizer. */
module TokenTheorems {
  import opened Chars
  import opened HtmlNodes
  import opened Options
  import opened TokenSpec
  import opened Seqs

  // ----- partition --------------------------------------------------------

  /** The events are non-empty slices of s that cover s[b..e] in order, each
      with the offset at which its slice begins. */
  ghost predicate Covers(s: string, events: seq<Event>, b: nat, e: nat)
    requires b <= e <= |s|
    decreases |events|
  {
    if events == [] then b == e
    else
      var n := events[0].node;
      && n.offset == b
      && 0 < n.length == |n.text|
      && b + |n.text| <= e
      && n.text == s[b..b+|n.text|]
      && Covers(s, events[1..], b + |n.text|, e)
  }

  lemma {:induction false} CoversConcat(s: string, x: seq<Event>, y: seq<Event>, b: nat, m: nat, e: nat)
    requires b <= m <= e <= |s|
    requires Covers(s, x, b, m) && Covers(s, y, m, e)
    ensures Covers(s, x + y, b, e)
    decreases |x|
  {
    if x == [] {
      assert x + y == y;
    } else {
      assert (x + y)[1..] == x[1..] + y;
      CoversConcat(s, x[1..], y, b + |x[0].node.text|, m, e);
    }
  }

  lemma TextCovers(s: string, b: nat, e: nat)
    requires b <= e <= |s|
    ensures Covers(s, TextEvents(s, b, e), b, e)
  {
    if b < e {
      assert TextEvents(s, b, e)[1..] == [];
    }
  }

  lemma MarkupCovers(s: string, c: nat)
    requires c < |s| && MarkupAt(s, c).Some?
    ensures Covers(s, [MarkupEvent(s, c)], c, MarkupAt(s, c).value.end)
  {
    assert [MarkupEvent(s, c)][1..] == [];
  }

  lemma {:induction false} TokensPartitionInput(s: string, c: nat, mode: Option<RawTag>)
    requires c <= |s|
    ensures Covers(s, Tokens(s, c, mode), c, |s|)
    decreases |s| - c
  {
    var e := TextEnd(s, c, mode);
    TextCovers(s, c, e);
    if e < |s| {
      var m := MarkupEvent(s, e);
      var end := MarkupAt(s, e).value.end;
      MarkupCovers(s, e);
      CoversConcat(s, TextEvents(s, c, e), [m], c, e, end);
      TokensPartitionInput(s, end, ModeAfter(m));
      CoversConcat(s, TextEvents(s, c, e) + [m], Tokens(s, end, ModeAfter(m)), c, end, |s|);
    }
  }

  lemma {:induction false} CoveredSource(s: string, events: seq<Event>, b: nat, e: nat)
    requires b <= e <= |s|
    requires Covers(s, events, b, e)
    ensures Source(events) == s[b..e]
    decreases |events|
  {
    if events != [] {
      var m := b + |events[0].node.text|;
      CoveredSource(s, events[1..], m, e);
      SourceConcat([events[0]], events[1..]);
      assert events == [events[0]] + events[1..];
      assert Source([events[0]]) == events[0].node.text by {
        assert [events[0]][..0] == [];
      }
      assert s[b..e] == s[b..m] + s[m..e];
    }
  }

  /** Joined, the texts of all events are the input. */
  lemma TokensSource(s: string)
    ensures Source(Tokens(s, 0, None)) == s
  {
    TokensPartitionInput(s, 0, None);
    CoveredSource(s, Tokens(s, 0, None), 0, |s|);
  }

  // ----- shape of the events ----------------------------------------------

  ghost predicate WellShaped(e: Event) {
    && e.node.closingText == "" && e.node.text != ""
    && e.node.length == |e.node.text|
    && match e
       case FoundTag(n, _) =>
         n.isTag && !n.isComment && n.tagName != "" && forall i :: 0 <= i < |n.tagName| ==> IsAlnum(n.tagName[i])
       case FoundText(n) => !n.isTag && !n.isComment
       case FoundComment(n) => !n.isTag && n.isComment
  }

  ghost predicate AllWellShaped(events: seq<Event>) {
    forall i :: 0 <= i < |events| ==> WellShaped(events[i])
  }

  ghost predicate NoAdjacentText(events: seq<Event>) {
    forall i :: 0 <= i < |events| - 1 ==> !(events[i].FoundText? && events[i+1].FoundText?)
  }

  /** Text can only be put before a list that does not begin with text. */
  lemma NoAdjacentConcat(text: seq<Event>, m: Event, rest: seq<Event>)
    requires |text| <= 1 && !m.FoundText? && NoAdjacentText(rest)
    requires AllWellShaped(text) && WellShaped(m) && AllWellShaped(rest)
    ensures NoAdjacentText(text + [m] + rest) && AllWellShaped(text + [m] + rest)
  {
    var k := |text| + 1;
    var all := text + [m] + rest;
    assert forall i :: k <= i < |all| ==> all[i] == rest[i-k];
  }

  /** Every tag has a name of letters and digits, and two text nodes are never
      neighbours. */
  lemma {:induction false} TokensWellShaped(s: string, c: nat, mode: Option<RawTag>)
    requires c <= |s|
    ensures AllWellShaped(Tokens(s, c, mode)) && NoAdjacentText(Tokens(s, c, mode))
    decreases |s| - c
  {
    var e := TextEnd(s, c, mode);
    if e < |s| {
      var m := MarkupEvent(s, e);
      var end := MarkupAt(s, e).value.end;
      TokensWellShaped(s, end, ModeAfter(m));
      MarkupWellShaped(s, e);
      NoAdjacentConcat(TextEvents(s, c, e), m, Tokens(s, end, ModeAfter(m)));
    }
  }

  lemma MarkupWellShaped(s: string, c: nat)
    requires c < |s| && MarkupAt(s, c).Some?
    ensures WellShaped(MarkupEvent(s, c)) && !MarkupEvent(s, c).FoundText?
  {
    var m := MarkupAt(s, c).value;
    match m.kind
    case CommentLike =>
    case OpenTag =>
      assert NameEnd(s, c + 1, m.end) > c + 1;
    case CloseTag =>
      assert NameEnd(s, c + 2, m.end) > c + 2;
  }

  // ----- raw text ---------------------------------------------------------

  lemma {:induction false} SkipTagSkips(s: string, c: nat, d: nat)
    requires c <= d <= |s|
    requires forall i :: c <= i < d ==> s[i] != '>' && s[i] != '='
    ensures SkipTag(s, c) == SkipTag(s, d)
    decreases d - c
  {
    if c < d {
      SkipTagSkips(s, c + 1, d);
    }
  }

  /** The tag that ends raw text is reported as a closing tag of that name. */
  lemma RawCloserEvent(s: string, c: nat, tag: RawTag)
    requires c < |s| && ClosesRaw(s, c, tag)
    ensures MarkupAt(s, c).Some?
    ensures var m := MarkupEvent(s, c);
            m.FoundTag? && m.isEnd && EqualsIgnoreCase(m.node.tagName, tag.Name())
  {
    var name := tag.Name();
    var n, g := c + 2 + |name|, SkipSpaces(s, c + 2 + |name|);
    forall i | c + 2 <= i < n
      ensures IsAlpha(s[i])
    {
      assert s[c+2..n][i-(c+2)] == s[i];
      assert ToLower(s[i]) == ToLower(name[i-(c+2)]);
    }
    SkipTagSkips(s, c + 1, g);
    var end := MarkupAt(s, c).value.end;
    assert end == g + 1;
    assert NameEnd(s, c + 2, end) == n;
  }

  /** Position i is in none of these stretches. */
  ghost predicate Outside(stretches: seq<(nat, nat)>, i: nat) {
    forall k :: 0 <= k < |stretches| ==> !(stretches[k].0 <= i < stretches[k].1)
  }

  /** The comments from c on, one behind the other: each is opened by the first
      "<!--" behind the one before, so that an opening inside a comment does
      not count. */
  ghost predicate Comments(s: string, c: nat, stretches: seq<(nat, nat)>)
    requires c <= |s|
    decreases |stretches|
  {
    if stretches == [] then forall i :: c <= i ==> !OpensComment(s, i)
    else
      var (b, e) := stretches[0];
      && c <= b && OpensComment(s, b) && (forall i :: c <= i < b ==> !OpensComment(s, i))
      && e == SkipComment(s, b + 4)
      && Comments(s, e, stretches[1..])
  }

  /** There is one such list for every text and place. */
  lemma {:induction false} CommentsFound(s: string, c: nat) returns (stretches: seq<(nat, nat)>)
    requires c <= |s|
    ensures Comments(s, c, stretches)
    decreases |s| - c
  {
    if i :| c <= i && OpensComment(s, i) {
      var b := c;
      while !OpensComment(s, b)
        invariant c <= b <= i && forall j :: c <= j < b ==> !OpensComment(s, j)
        decreases i - b
      {
        b := b + 1;
      }
      var e := SkipComment(s, b + 4);
      var rest := CommentsFound(s, e);
      stretches := [(b, e)] + rest;
      assert stretches[1..] == rest;
    } else {
      stretches := [];
    }
  }

  lemma {:induction false} CommentsBehind(s: string, c: nat, stretches: seq<(nat, nat)>)
    requires c <= |s| && Comments(s, c, stretches)
    ensures forall k :: 0 <= k < |stretches| ==> c <= stretches[k].0
    decreases |stretches|
  {
    if stretches != [] {
      CommentsBehind(s, stretches[0].1, stretches[1..]);
      assert forall k :: 0 < k < |stretches| ==> stretches[k] == stretches[1..][k-1];
    }
  }

  /** What is outside the first stretch and the others is outside all. */
  lemma OutsideFirst(stretches: seq<(nat, nat)>, i: nat)
    requires stretches != []
    ensures Outside(stretches, i) <==> !(stretches[0].0 <= i < stretches[0].1) && Outside(stretches[1..], i)
  {
    var rest := stretches[1..];
    assert forall k :: 0 <= k < |rest| ==> rest[k] == stretches[k+1];
    if Outside(rest, i) && !(stretches[0].0 <= i < stretches[0].1) {
      forall k | 0 <= k < |stretches|
        ensures !(stretches[k].0 <= i < stretches[k].1)
      {
        assert k > 0 ==> stretches[k] == rest[k-1];
      }
    }
  }

  /** Raw text ends at the first closing tag that is outside the comments, or
      with the input if there is none. */
  lemma {:induction false} RawEndIsFirst(s: string, c: nat, tag: RawTag, comments: seq<(nat, nat)>)
    requires c <= |s| && Comments(s, c, comments)
    ensures var r := RawEnd(s, c, tag);
            && (r < |s| ==> ClosesRaw(s, r, tag) && Outside(comments, r))
            && forall i :: c <= i < r && ClosesRaw(s, i, tag) ==> !Outside(comments, i)
    decreases |s| - c
  {
    hide ClosesRaw, OpensComment, SkipComment, Outside;
    if c == |s| {
    } else if ClosesRaw(s, c, tag) {
      CloserOutside(s, c, tag, comments);
    } else if OpensComment(s, c) {
      var d := SkipComment(s, c + 4);
      assert comments != [] && comments[0] == (c, d);
      RawEndIsFirst(s, d, tag, comments[1..]);
      CommentsBehind(s, d, comments[1..]);
      forall i | c <= i <= RawEnd(s, c, tag) && ClosesRaw(s, i, tag)
        ensures Outside(comments, i) <==> d <= i && Outside(comments[1..], i)
      {
        OutsideFirst(comments, i);
      }
    } else {
      RawEndIsFirst(s, c + 1, tag, comments);
    }
  }

  lemma CloserOutside(s: string, c: nat, tag: RawTag, comments: seq<(nat, nat)>)
    requires c <= |s| && Comments(s, c, comments) && ClosesRaw(s, c, tag)
    ensures Outside(comments, c)
  {
    assert !OpensComment(s, c);
    if comments != [] {
      CommentsBehind(s, comments[0].1, comments[1..]);
      OutsideFirst(comments, c);
    }
  }

  /** What may follow a raw-text element's opening tag that ends at b: nothing
      or one text node up to the end of the input, or at most one text node up
      to the first closing tag and then that closing tag. */
  ghost predicate RawContinuation(s: string, b: nat, tag: RawTag, rest: seq<Event>)
    requires b <= |s|
  {
    var e := RawEnd(s, b, tag);
    var text := TextEvents(s, b, e);
    if e == |s| then rest == text
    else
      && tag != Plaintext
      && |text| < |rest| && rest[..|text|] == text
      && var m := rest[|text|];
         m.FoundTag? && m.isEnd && m.node.offset == e && EqualsIgnoreCase(m.node.tagName, tag.Name())
  }

  /** What directly follows the opening tag of a raw-text element. */
  lemma TokensInRawText(s: string, b: nat, tag: RawTag)
    requires b <= |s|
    ensures RawContinuation(s, b, tag, Tokens(s, b, Some(tag)))
  {
    var e := RawEnd(s, b, tag);
    if e < |s| {
      RawCloserEvent(s, e, tag);
      var m := MarkupEvent(s, e);
      var rest := Tokens(s, MarkupAt(s, e).value.end, ModeAfter(m));
      assert Tokens(s, b, Some(tag)) == TextEvents(s, b, e) + [m] + rest;
    }
  }

  /** Every opening tag of a raw-text element among the events is followed as
      RawContinuation says. */
  ghost predicate RawTextObeyed(s: string, events: seq<Event>)
    decreases |events|
  {
    events != [] ==>
      && RawTextObeyed(s, events[1..])
      && (ModeAfter(events[0]).Some? ==>
            var n := events[0].node;
            n.offset + |n.text| <= |s| &&
            RawContinuation(s, n.offset + |n.text|, ModeAfter(events[0]).value, events[1..]))
  }

  lemma RawTextCons(s: string, m: Event, end: nat, rest: seq<Event>)
    requires end <= |s| && m.node.offset + |m.node.text| == end
    requires RawTextObeyed(s, rest)
    requires ModeAfter(m).Some? ==> RawContinuation(s, end, ModeAfter(m).value, rest)
    ensures RawTextObeyed(s, [m] + rest)
  {
    assert ([m] + rest)[1..] == rest;
  }

  lemma RawTextMarkup(s: string, c: nat)
    requires c < |s| && MarkupAt(s, c).Some?
    requires var m := MarkupEvent(s, c);
             RawTextObeyed(s, Tokens(s, MarkupAt(s, c).value.end, ModeAfter(m)))
    ensures var m := MarkupEvent(s, c);
            RawTextObeyed(s, [m] + Tokens(s, MarkupAt(s, c).value.end, ModeAfter(m)))
  {
    var m, end := MarkupEvent(s, c), MarkupAt(s, c).value.end;
    MarkupCovers(s, c);
    if ModeAfter(m).Some? {
      TokensInRawText(s, end, ModeAfter(m).value);
    }
    RawTextCons(s, m, end, Tokens(s, end, ModeAfter(m)));
  }

  lemma RawTextText(s: string, b: nat, e: nat, later: seq<Event>)
    requires b <= e <= |s| && RawTextObeyed(s, later)
    ensures RawTextObeyed(s, TextEvents(s, b, e) + later)
  {
    if b < e {
      RawTextCons(s, FoundText(TextNode(s[b..e], b)), e, later);
    } else {
      assert TextEvents(s, b, e) + later == later;
    }
  }

  lemma {:induction false} RawTextTheorem(s: string, c: nat, mode: Option<RawTag>)
    requires c <= |s|
    ensures RawTextObeyed(s, Tokens(s, c, mode))
    decreases |s| - c
  {
    var e := TextEnd(s, c, mode);
    if e == |s| {
      RawTextText(s, c, e, []);
      assert TextEvents(s, c, e) + [] == Tokens(s, c, mode);
    } else {
      var m, end := MarkupEvent(s, e), MarkupAt(s, e).value.end;
      var rest := Tokens(s, end, ModeAfter(m));
      RawTextTheorem(s, end, ModeAfter(m));
      RawTextMarkup(s, e);
      RawTextText(s, c, e, [m] + rest);
      Regroup(TextEvents(s, c, e), [m], rest);
    }
  }

  // ----- the ends of tags and comments ------------------------------------

  /** An '=' at c with a quoted value behind it that is closed. */
  ghost predicate OpensValue(s: string, c: nat) {
    && c < |s| && s[c] == '='
    && var v := SkipSpaces(s, c + 1);
       && v < |s| && (s[v] == '"' || s[v] == '\'')
       && exists q :: v < q < |s| && s[q] == s[v]
  }

  /** Where its closing quote ends. */
  ghost function ValueEnd(s: string, c: nat): (r: nat)
    requires OpensValue(s, c)
    ensures c < r <= |s|
  {
    var v := SkipSpaces(s, c + 1);
    FindChar(s, v + 1, s[v]) + 1
  }

  /** The quoted values from c on, one behind the other. */
  ghost predicate QuotedValues(s: string, c: nat, stretches: seq<(nat, nat)>)
    requires c <= |s|
    decreases |stretches|
  {
    if stretches == [] then forall i :: c <= i ==> !OpensValue(s, i)
    else
      var (b, e) := stretches[0];
      && c <= b && OpensValue(s, b) && (forall i :: c <= i < b ==> !OpensValue(s, i))
      && e == ValueEnd(s, b)
      && QuotedValues(s, e, stretches[1..])
  }

  lemma {:induction false} QuotedValuesFound(s: string, c: nat) returns (stretches: seq<(nat, nat)>)
    requires c <= |s|
    ensures QuotedValues(s, c, stretches)
    decreases |s| - c
  {
    hide OpensValue, ValueEnd;
    if i :| c <= i && OpensValue(s, i) {
      var b := c;
      while !OpensValue(s, b)
        invariant c <= b <= i && forall j :: c <= j < b ==> !OpensValue(s, j)
        decreases i - b
      {
        b := b + 1;
      }
      var e := ValueEnd(s, b);
      var rest := QuotedValuesFound(s, e);
      stretches := [(b, e)] + rest;
      assert stretches[1..] == rest;
    } else {
      stretches := [];
    }
  }

  lemma {:induction false} QuotedValuesBehind(s: string, c: nat, stretches: seq<(nat, nat)>)
    requires c <= |s| && QuotedValues(s, c, stretches)
    ensures forall k :: 0 <= k < |stretches| ==> c <= stretches[k].0
    decreases |stretches|
  {
    hide OpensValue, ValueEnd;
    if stretches != [] {
      QuotedValuesBehind(s, stretches[0].1, stretches[1..]);
      assert forall k :: 0 < k < |stretches| ==> stretches[k] == stretches[1..][k-1];
    }
  }

  /** AfterValue passes a quoted value, or a few characters that open none and
      close no tag. */
  lemma AfterValueIs(s: string, c: nat)
    requires c < |s| && s[c] == '='
    ensures OpensValue(s, c) ==> AfterValue(s, c) == ValueEnd(s, c)
    ensures !OpensValue(s, c) ==> forall i :: c <= i < AfterValue(s, c) ==> s[i] != '>' && !OpensValue(s, i)
  {
    var v := SkipSpaces(s, c + 1);
    if v < |s| && (s[v] == '"' || s[v] == '\'') {
      var q := FindChar(s, v + 1, s[v]);
      assert OpensValue(s, c) <==> q < |s|;
    }
  }

  /** A tag ends behind the first '>' that is outside the quoted values, or
      with the input if there is none. */
  lemma {:induction false} TagEndsAtAngle(s: string, c: nat, values: seq<(nat, nat)>)
    requires c <= |s| && QuotedValues(s, c, values)
    ensures var r := SkipTag(s, c);
            || (c < r && s[r-1] == '>' && Outside(values, r - 1)
                && forall i :: c <= i < r - 1 && s[i] == '>' ==> !Outside(values, i))
            || (r == |s| && forall i :: c <= i < r && s[i] == '>' ==> !Outside(values, i))
    decreases |s| - c
  {
    hide OpensValue, ValueEnd, AfterValue, Outside;
    if c == |s| {
    } else if s[c] == '>' {
      AngleOutside(s, c, values);
    } else if s[c] == '=' {
      AfterValueIs(s, c);
      var d := AfterValue(s, c);
      if OpensValue(s, c) {
        assert values != [] && values[0] == (c, d);
        TagEndsAtAngle(s, d, values[1..]);
        forall i | c <= i < |s|
          ensures Outside(values, i) <==> d <= i && Outside(values[1..], i)
        {
          OutsideFirst(values, i);
        }
      } else {
        TagEndsAtAngle(s, d, values);
      }
    } else {
      NoValueAt(s, c);
      TagEndsAtAngle(s, c + 1, values);
    }
  }

  lemma NoValueAt(s: string, c: nat)
    requires c < |s| && s[c] != '='
    ensures !OpensValue(s, c)
  {
  }

  lemma AngleOutside(s: string, c: nat, values: seq<(nat, nat)>)
    requires c < |s| && QuotedValues(s, c, values) && s[c] == '>'
    ensures Outside(values, c)
  {
    hide ValueEnd;
    assert !OpensValue(s, c);
    if values != [] {
      QuotedValuesBehind(s, values[0].1, values[1..]);
      OutsideFirst(values, c);
    }
  }

  /** A comment's end is the first "--", blanks, '>' behind its opening. */
  lemma {:induction false} CommentEndsAtFirst(s: string, c: nat)
    requires c <= |s|
    ensures var e := SkipComment(s, c);
            || (exists i :: c <= i < e && EndsComment(s, i) && e == CommentTail(s, i)
                            && forall j :: c <= j < i ==> !EndsComment(s, j))
            || (e == |s| && forall j :: c <= j <= |s| ==> !EndsComment(s, j))
    decreases |s| - c
  {
    if c < |s| && !EndsComment(s, c) {
      CommentEndsAtFirst(s, c + 1);
    }
  }
}
