/** What the events of an input are, told by characters and places. */
module TokenMeaning {
  import opened Chars
  import opened HtmlNodes
  import opened Options
  import opened TokenSpec
  import opened TokenTheorems
  import opened Seqs

  // ----- where things begin and end ---------------------------------------

  /** Markup begins here: a '<' with a letter, '/', '!', '?' or '%' behind it. */
  predicate Begins(s: string, i: nat) {
    i + 1 < |s| && s[i] == '<' && (IsAlpha(s[i+1]) || s[i+1] in "/!?%")
  }

  /** The tag whose inside begins at c ends at e: behind the first '>' outside
      the quoted values, or with the input. */
  ghost predicate TagEnds(s: string, c: nat, e: nat) {
    c <= e <= |s| && exists values :: QuotedValues(s, c, values) && AngleEnds(s, c, e, values)
  }

  ghost predicate AngleEnds(s: string, c: nat, e: nat, values: seq<(nat, nat)>)
    requires c <= e <= |s|
  {
    || (c < e && s[e-1] == '>' && Outside(values, e - 1)
        && forall i :: c <= i < e - 1 && s[i] == '>' ==> !Outside(values, i))
    || (e == |s| && forall i :: c <= i < e && s[i] == '>' ==> !Outside(values, i))
  }

  /** "--", blanks and '>' from i on, up to e; the input may end in place of the
      '>'. */
  ghost predicate CommentClose(s: string, i: nat, e: nat) {
    && i + 2 <= e <= |s| && s[i] == '-' && s[i+1] == '-'
    && exists g :: i + 2 <= g <= e && (forall k :: i + 2 <= k < g ==> IsSpace(s[k]))
                   && (if g == |s| then e == g else s[g] == '>' && e == g + 1)
  }

  /** The comment whose inside begins at c ends at e: with the first such close,
      or with the input. */
  ghost predicate CommentEnds(s: string, c: nat, e: nat) {
    && c <= e <= |s|
    && (|| (exists i: nat :: c <= i && CommentClose(s, i, e)
                             && forall j: nat, k: nat :: c <= j < i ==> !CommentClose(s, j, k))
        || (e == |s| && forall j: nat, k: nat :: c <= j ==> !CommentClose(s, j, k)))
  }

  /** The name from c on: as many letters and digits as there are up to e. */
  ghost predicate NameFrom(s: string, c: nat, e: nat, name: string) {
    && name != "" && c + |name| <= e <= |s| && name == s[c..c+|name|]
    && (forall i :: 0 <= i < |name| ==> IsAlnum(name[i]))
    && (c + |name| < e ==> !IsAlnum(s[c+|name|]))
  }

  /** The text of an element whose content is not read as markup ends at e: at
      its first closing tag outside the comments, or with the input. */
  ghost predicate RawEnds(s: string, c: nat, e: nat, tag: RawTag) {
    c <= e <= |s| && exists comments :: Comments(s, c, comments) && CloserEnds(s, c, e, tag, comments)
  }

  ghost predicate CloserEnds(s: string, c: nat, e: nat, tag: RawTag, comments: seq<(nat, nat)>)
    requires c <= e <= |s|
  {
    && (e < |s| ==> ClosesRaw(s, e, tag) && Outside(comments, e))
    && forall i :: c <= i < e && ClosesRaw(s, i, tag) ==> !Outside(comments, i)
  }

  /** The text from c on ends at e. */
  ghost predicate TextEnds(s: string, c: nat, e: nat, raw: Option<RawTag>) {
    && c <= e <= |s|
    && match raw
       case Some(tag) => RawEnds(s, c, e, tag)
       case None => (forall i :: c <= i < e ==> !Begins(s, i)) && (e < |s| ==> Begins(s, e))
  }

  // ----- what the markup at a place is ------------------------------------

  /** The event of the markup from b up to e. */
  ghost predicate MarkupIs(s: string, b: nat, e: nat, m: Event)
    requires b <= e <= |s| && Begins(s, b)
  {
    var text, d := s[b..e], s[b+1];
    if IsAlpha(d) then
      && TagEnds(s, b + 1, e) && NameFrom(s, b + 1, e, m.node.tagName)
      && m == FoundTag(HtmlNode(text, "", b, e - b, m.node.tagName, true, false), false)
    else if d == '/' && b + 2 < |s| && IsAlpha(s[b+2]) then
      && TagEnds(s, b + 1, e) && NameFrom(s, b + 2, e, m.node.tagName)
      && m == FoundTag(HtmlNode(text, "", b, e - b, m.node.tagName, true, false), true)
    else
      && m == FoundComment(HtmlNode(text, "", b, e - b, text, false, true))
      && if d == '!' && b + 3 < |s| && s[b+2] == '-' && s[b+3] == '-' then CommentEnds(s, b + 4, e)
         else TagEnds(s, b + 1, e)
  }

  /** The elements whose content is not read as markup. */
  const RAW_NAMES: map<RawTag, string> :=
    map[Script := "script", Style := "style", Xmp := "xmp", Plaintext := "plaintext", Textarea := "textarea"]

  /** Behind this event the content of such an element is read. */
  ghost predicate RawAfter(m: Event, raw: Option<RawTag>) {
    match raw
    case Some(tag) => m.FoundTag? && !m.isEnd && tag in RAW_NAMES && EqualsIgnoreCase(m.node.tagName, RAW_NAMES[tag])
    case None =>
      m.FoundTag? && !m.isEnd ==> forall tag | tag in RAW_NAMES :: !EqualsIgnoreCase(m.node.tagName, RAW_NAMES[tag])
  }

  /** The events from b on: a text, if there is any in front of the next markup,
      that markup, and so on to the end. */
  ghost predicate EventsAre(s: string, b: nat, raw: Option<RawTag>, events: seq<Event>)
    requires b <= |s|
    decreases |s| - b, 1
  {
    exists e :: TextEnds(s, b, e, raw) && TextIs(s, b, e, events) && RestIs(s, e, events[if b < e then 1 else 0..])
  }

  ghost predicate TextIs(s: string, b: nat, e: nat, events: seq<Event>)
    requires b <= e <= |s|
  {
    b < e ==> events != [] && events[0] == FoundText(HtmlNode(s[b..e], "", b, e - b, s[b..e], false, false))
  }

  ghost predicate RestIs(s: string, e: nat, rest: seq<Event>)
    requires e <= |s|
    decreases |s| - e, 0
  {
    if e == |s| then rest == []
    else
      && rest != [] && Begins(s, e)
      && exists end, raw :: e < end <= |s| && MarkupIs(s, e, end, rest[0]) && RawAfter(rest[0], raw)
                            && EventsAre(s, end, raw, rest[1..])
  }

  // ----- the tokenizer does that ------------------------------------------

  lemma BeginsIs(s: string, i: nat)
    requires i < |s|
    ensures Begins(s, i) <==> MarkupAt(s, i).Some?
  {
    hide SkipTag, SkipComment;
  }

  lemma TagEndIs(s: string, c: nat)
    requires c <= |s|
    ensures TagEnds(s, c, SkipTag(s, c))
  {
    hide SkipTag, QuotedValues, Outside;
    var values := QuotedValuesFound(s, c);
    TagEndsAtAngle(s, c, values);
    assert AngleEnds(s, c, SkipTag(s, c), values);
  }

  lemma BlanksEnd(s: string, c: nat, g: nat)
    requires c <= g <= |s| && (forall k :: c <= k < g ==> IsSpace(s[k])) && (g < |s| ==> !IsSpace(s[g]))
    ensures SkipSpaces(s, c) == g
  {
  }

  lemma CloseIs(s: string, i: nat, e: nat)
    requires i <= |s|
    ensures CommentClose(s, i, e) <==> EndsComment(s, i) && e == CommentTail(s, i)
  {
    hide SkipSpaces;
    if CommentClose(s, i, e) {
      var g :| i + 2 <= g <= e && (forall k :: i + 2 <= k < g ==> IsSpace(s[k]))
               && (if g == |s| then e == g else s[g] == '>' && e == g + 1);
      BlanksEnd(s, i + 2, g);
    }
    if EndsComment(s, i) && e == CommentTail(s, i) {
      var g := SkipSpaces(s, i + 2);
      assert i + 2 <= g <= e;
    }
  }

  lemma CommentEndIs(s: string, c: nat)
    requires c <= |s|
    ensures CommentEnds(s, c, SkipComment(s, c))
  {
    hide SkipComment, EndsComment, CommentClose, CommentTail;
    var e := SkipComment(s, c);
    CommentEndsAtFirst(s, c);
    forall j: nat, k: nat | c <= j && CommentClose(s, j, k)
      ensures j <= |s| && EndsComment(s, j)
    {
      CloseInside(s, j, k);
      CloseIs(s, j, k);
    }
    if i: nat :| c <= i < e && EndsComment(s, i) && e == CommentTail(s, i)
                 && forall j :: c <= j < i ==> !EndsComment(s, j) {
      CloseIs(s, i, e);
    }
  }

  lemma CloseInside(s: string, i: nat, e: nat)
    requires CommentClose(s, i, e)
    ensures i <= |s|
  {
  }

  lemma NameIs(s: string, c: nat, e: nat)
    requires c < e <= |s| && IsAlpha(s[c])
    ensures c < NameEnd(s, c, e) && NameFrom(s, c, e, s[c..NameEnd(s, c, e)])
  {
  }

  lemma RawEndIs(s: string, c: nat, tag: RawTag)
    requires c <= |s|
    ensures RawEnds(s, c, RawEnd(s, c, tag), tag)
  {
    hide RawEnd, Comments, ClosesRaw, Outside;
    var comments := CommentsFound(s, c);
    RawEndIsFirst(s, c, tag, comments);
    assert CloserEnds(s, c, RawEnd(s, c, tag), tag, comments);
  }

  lemma TextEndIs(s: string, c: nat, raw: Option<RawTag>)
    requires c <= |s|
    ensures TextEnds(s, c, TextEnd(s, c, raw), raw)
    ensures TextEnd(s, c, raw) < |s| ==> Begins(s, TextEnd(s, c, raw))
  {
    hide MarkupAt, RawEnds, Begins, NextMarkup, RawEnd;
    var e := TextEnd(s, c, raw);
    forall i | 0 <= i < |s|
      ensures Begins(s, i) <==> MarkupAt(s, i).Some?
    {
      BeginsIs(s, i);
    }
    match raw
    case Some(tag) => RawEndIs(s, c, tag);
    case None =>
  }

  lemma MarkupEventIs(s: string, b: nat)
    requires b < |s| && MarkupAt(s, b).Some?
    ensures Begins(s, b) && b < MarkupAt(s, b).value.end <= |s|
    ensures MarkupIs(s, b, MarkupAt(s, b).value.end, MarkupEvent(s, b))
  {
    hide SkipTag, SkipComment, TagEnds, CommentEnds, NameFrom, NameEnd;
    BeginsIs(s, b);
    var end := MarkupAt(s, b).value.end;
    if IsAlpha(s[b+1]) {
      TagEndIs(s, b + 1);
      NameIs(s, b + 1, end);
    } else if s[b+1] == '/' && b + 2 < |s| && IsAlpha(s[b+2]) {
      TagEndIs(s, b + 1);
      NameIs(s, b + 2, end);
    } else if s[b+1] == '!' && b + 3 < |s| && s[b+2] == '-' && s[b+3] == '-' {
      CommentEndIs(s, b + 4);
    } else {
      TagEndIs(s, b + 1);
    }
  }

  lemma ModeIs(m: Event)
    ensures RawAfter(m, ModeAfter(m))
  {
    hide EqualsIgnoreCase;
  }

  lemma NextEvents(s: string, e: nat, m: Event, end: nat, raw: Option<RawTag>, rest: seq<Event>)
    requires e < end <= |s| && Begins(s, e) && MarkupIs(s, e, end, m) && RawAfter(m, raw)
    requires EventsAre(s, end, raw, rest)
    ensures RestIs(s, e, [m] + rest)
  {
    var later := [m] + rest;
    assert later[0] == m && later[1..] == rest;
    assert MarkupIs(s, e, end, later[0]) && RawAfter(later[0], raw) && EventsAre(s, end, raw, later[1..]);
  }

  /** From every place on, in either mode, the events are what EventsAre says. */
  lemma {:induction false} TokensAre(s: string, b: nat, raw: Option<RawTag>)
    requires b <= |s|
    ensures EventsAre(s, b, raw, Tokens(s, b, raw))
    decreases |s| - b
  {
    hide MarkupAt, MarkupEvent, MarkupIs, TextEnd, TextEnds, Begins, ModeAfter, RawAfter;
    var e := TextEnd(s, b, raw);
    TextEndIs(s, b, raw);
    var text, rest := TextEvents(s, b, e), [];
    if e < |s| {
      var m, end := MarkupEvent(s, e), MarkupAt(s, e).value.end;
      MarkupEventIs(s, e);
      ModeIs(m);
      TokensAre(s, end, ModeAfter(m));
      NextEvents(s, e, m, end, ModeAfter(m), Tokens(s, end, ModeAfter(m)));
      rest := [m] + Tokens(s, end, ModeAfter(m));
      Regroup(text, [m], Tokens(s, end, ModeAfter(m)));
    }
    assert Tokens(s, b, raw) == text + rest;
    assert (text + rest)[|text|..] == rest;
    assert TextIs(s, b, e, text + rest);
  }

  /** For every input. */
  lemma TokensMean(s: string)
    ensures EventsAre(s, 0, None, Tokens(s, 0, None))
  {
    TokensAre(s, 0, None);
  }
}
