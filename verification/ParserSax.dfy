/** libhtmlparser/ParserSax.tcc: the backtracking tokenizer. Every cursor is an
    index into the input; index |s| is the terminator of the C string. */
module ParserSaxModule {
  import opened Chars
  import opened HtmlNodes
  import opened Options
  import opened TokenSpec
  import opened Seqs

  // ----- steps the loops may take without changing what they are after ----

  /** Characters that are no '<' can be skipped while raw text is read. */
  lemma {:induction false} RawEndSkips(s: string, c: nat, d: nat, tag: RawTag)
    requires c <= d <= |s|
    requires forall i :: c <= i < d ==> s[i] != '<'
    ensures RawEnd(s, c, tag) == RawEnd(s, d, tag)
    decreases d - c
  {
    if c < d {
      RawEndSkips(s, c + 1, d, tag);
    }
  }

  /** How much of name can be read at c, ignoring case. */
  ghost predicate Matched(s: string, c: nat, k: nat, name: string) {
    k <= |name| && c + k <= |s| && forall i :: 0 <= i < k ==> ToLower(s[c+i]) == name[i]
  }

  ghost predicate LowerCase(name: string) {
    forall i :: 0 <= i < |name| ==> 'a' <= name[i] <= 'z'
  }

  lemma MatchedAll(s: string, c: nat, k: nat, name: string)
    requires LowerCase(name) && c <= |s|
    requires Matched(s, c, k, name)
    requires k < |name| ==> ToLower(At(s, c + k)) != name[k]
    ensures NameAt(s, c, name) <==> k == |name|
  {
    if NameAt(s, c, name) {
      assert forall i :: 0 <= i < |name| ==> s[c..c+|name|][i] == s[c+i] && ToLower(name[i]) == name[i];
    }
    if k == |name| {
      forall i | 0 <= i < |name|
        ensures ToLower(s[c..c+|name|][i]) == ToLower(name[i])
      {
        assert s[c..c+|name|][i] == s[c+i];
      }
    }
  }

  // ----- the main loop ----------------------------------------------------

  /** One round of the outer loop: from c, in the given mode, to next. */
  ghost predicate Round(s: string, c: nat, mode: Option<RawTag>, next: nat, mode': Option<RawTag>, made: seq<Event>)
    requires c <= |s|
  {
    var e := TextEnd(s, c, mode);
    if e == |s| then
      next == |s| && mode' == mode && made == TextEvents(s, c, e)
    else
      && next == MarkupAt(s, e).value.end
      && mode' == ModeAfter(MarkupEvent(s, e))
      && made == TextEvents(s, c, e) + [MarkupEvent(s, e)]
  }

  lemma RoundAdvances(s: string, c: nat, mode: Option<RawTag>, next: nat, mode': Option<RawTag>,
                      before: seq<Event>, made: seq<Event>)
    requires c <= |s|
    requires Round(s, c, mode, next, mode', made)
    ensures c < |s| ==> c < next
    ensures next <= |s|
    ensures before + Tokens(s, c, mode) == (before + made) + Tokens(s, next, mode')
  {
    if TextEnd(s, c, mode) == |s| {
      assert Tokens(s, next, mode') == [];
    }
    Regroup(before, made, Tokens(s, next, mode'));
  }

  class ParserSax {
    var literal: Option<RawTag>
    var currentOffset: nat
    // The callbacks made so far, in order.
    var events: seq<Event>

    constructor ()
      ensures literal == None && events == []
    {
      literal := None;
      currentOffset := 0;
      events := [];
    }

    method SkipHtmlComment(s: string, start: nat) returns (c: nat)
      requires start <= |s|
      ensures c == SkipComment(s, start)
    {
      c := start;
      while c != |s|
        invariant start <= c <= |s|
        invariant SkipComment(s, start) == SkipComment(s, c)
        decreases |s| - c
      {
        var first := s[c];
        c := c + 1;
        if first == '-' && c != |s| && s[c] == '-' {
          var d := c;
          c := c + 1;
          while c != |s| && IsSpace(s[c])
            invariant d < c <= |s|
            invariant SkipSpaces(s, d + 1) == SkipSpaces(s, c)
            decreases |s| - c
          {
            c := c + 1;
          }
          if c == |s| { break; }
          var last := s[c];
          c := c + 1;
          if last == '>' { break; }
          c := d;
        }
      }
    }

    method FindNextQuote(s: string, start: nat, quote: char) returns (c: nat)
      requires start <= |s|
      ensures c == FindChar(s, start, quote)
    {
      c := start;
      while c != |s| && s[c] != quote
        invariant start <= c <= |s|
        invariant FindChar(s, start, quote) == FindChar(s, c, quote)
        decreases |s| - c
      {
        c := c + 1;
      }
    }

    /** The part of skipHtmlTag that runs at an '='. */
    method SkipAttributeValue(s: string, eq: nat) returns (c: nat)
      requires eq < |s| && s[eq] == '='
      ensures c == AfterValue(s, eq)
    {
      c := eq + 1;
      while c != |s| && IsSpace(s[c])
        invariant eq < c <= |s|
        invariant SkipSpaces(s, eq + 1) == SkipSpaces(s, c)
        decreases |s| - c
      {
        c := c + 1;
      }
      if c == |s| { return; }
      if s[c] == '"' || s[c] == '\'' {
        var save := c;
        var quote := s[c];
        c := c + 1;
        c := FindNextQuote(s, c, quote);
        if c != |s| {
          c := c + 1;
        } else {
          c := save;
          c := c + 1;
        }
      }
    }

    method SkipHtmlTag(s: string, start: nat) returns (c: nat)
      requires start <= |s|
      ensures c == SkipTag(s, start)
    {
      c := start;
      while c != |s| && s[c] != '>'
        invariant start <= c <= |s|
        invariant SkipTag(s, start) == SkipTag(s, c)
        decreases |s| - c
      {
        if s[c] != '=' {
          c := c + 1;
        } else {
          c := SkipAttributeValue(s, c);
        }
      }
      if c != |s| { c := c + 1; }
    }

    method ParseComment(s: string, b: nat, c: nat)
      requires b <= c <= |s|
      modifies this
      ensures events == old(events) + [FoundComment(CommentNode(s[b..c], old(currentOffset)))]
      ensures currentOffset == old(currentOffset) + (c - b)
      ensures literal == old(literal)
    {
      var node := CommentNode(s[b..c], currentOffset);
      currentOffset := currentOffset + node.length;
      events := events + [FoundComment(node)];
    }

    method ParseContent(s: string, b: nat, c: nat)
      requires b <= c <= |s|
      modifies this
      ensures events == old(events) + [FoundText(TextNode(s[b..c], old(currentOffset)))]
      ensures currentOffset == old(currentOffset) + (c - b)
      ensures literal == old(literal)
    {
      var node := TextNode(s[b..c], currentOffset);
      currentOffset := currentOffset + node.length;
      events := events + [FoundText(node)];
    }

    /** The search of the table of raw-text elements. */
    static method LookupRawTag(name: string) returns (r: Option<RawTag>)
      ensures r == RawTagFor(name)
    {
      r := None;
      for i := 0 to |LITERAL_MODE_ELEM|
        invariant r == None
        invariant forall k :: 0 <= k < i ==> !EqualsIgnoreCase(name, LITERAL_MODE_ELEM[k].Name())
      {
        var elem := LITERAL_MODE_ELEM[i];
        if |name| == |elem.Name()| && EqualsIgnoreCase(name, elem.Name()) {
          r := Some(elem);
          break;
        }
      }
      assert LITERAL_MODE_ELEM[0] == Script && LITERAL_MODE_ELEM[1] == Style && LITERAL_MODE_ELEM[2] == Xmp
          && LITERAL_MODE_ELEM[3] == Plaintext && LITERAL_MODE_ELEM[4] == Textarea;
    }

    method ParseHtmlTag(s: string, b: nat, c: nat)
      requires b < c <= |s| && MarkupAt(s, b).Some?
      requires MarkupAt(s, b).value.end == c && !MarkupAt(s, b).value.kind.CommentLike?
      requires currentOffset == b
      requires literal == None
      modifies this
      ensures events == old(events) + [MarkupEvent(s, b)]
      ensures currentOffset == c
      ensures literal == ModeAfter(MarkupEvent(s, b))
    {
      var nameBegin := b + 1;
      var isEndTag := s[nameBegin] == '/';
      if isEndTag { nameBegin := nameBegin + 1; }
      var nameEnd := nameBegin;
      while nameEnd != c && IsAlnum(s[nameEnd])
        invariant nameBegin <= nameEnd <= c
        invariant NameEnd(s, nameBegin, c) == NameEnd(s, nameEnd, c)
        decreases c - nameEnd
      {
        nameEnd := nameEnd + 1;
      }
      var name := s[nameBegin..nameEnd];
      if !isEndTag {
        literal := LookupRawTag(name);
      }
      var node := TagNode(s[b..c], name, currentOffset);
      currentOffset := currentOffset + node.length;
      events := events + [FoundTag(node, isEndTag)];
    }

    /** How much of the raw-text element's name is read at c. */
    method MatchName(s: string, start: nat, name: string) returns (c: nat, all: bool)
      requires start <= |s| && LowerCase(name)
      ensures start <= c <= |s|
      ensures forall i :: start <= i < c ==> s[i] != '<'
      ensures all <==> NameAt(s, start, name)
      ensures all ==> c == start + |name|
    {
      c := start;
      var l := 0;
      while l < |name| && ToLower(At(s, c)) == name[l]
        invariant l <= |name| && c == start + l <= |s|
        invariant Matched(s, start, l, name)
        invariant forall i :: start <= i < c ==> s[i] != '<'
        decreases |name| - l
      {
        c := c + 1;
        l := l + 1;
      }
      MatchedAll(s, start, l, name);
      all := l == |name|;
    }

    /** The blanks between the name and the '>'. */
    method SkipBlanks(s: string, start: nat) returns (c: nat)
      requires start <= |s|
      ensures c == SkipSpaces(s, start) && start <= c <= |s|
      ensures forall i :: start <= i < c ==> s[i] != '<'
    {
      c := start;
      while IsSpace(At(s, c))
        invariant start <= c <= |s|
        invariant SkipSpaces(s, start) == SkipSpaces(s, c)
        invariant forall i :: start <= i < c ==> s[i] != '<'
        decreases |s| - c
      {
        c := c + 1;
      }
    }

    /** In raw text, at a "</": is this the closing tag? c is where the scan
        goes on when it is not. */
    method TryClosingTag(s: string, endText: nat, tag: RawTag) returns (c: nat, closes: bool)
      requires endText + 1 < |s| && s[endText] == '<' && s[endText+1] == '/'
      ensures closes <==> ClosesRaw(s, endText, tag)
      ensures endText < c <= |s|
      ensures forall i :: endText < i < c ==> s[i] != '<'
    {
      hide NameAt, SkipSpaces, IsSpace;
      var all;
      c, all := MatchName(s, endText + 2, tag.Name());
      closes := false;
      if all && tag != Plaintext {
        c := SkipBlanks(s, c);
        closes := At(s, c) == '>';
      }
    }

    /** In raw text, at a '<': is this the closing tag? c is where the scan
        goes on when it is not. */
    method TryRawMarkup(s: string, endText: nat, tag: RawTag) returns (c: nat, closes: bool)
      requires endText < |s| && s[endText] == '<'
      ensures closes <==> ClosesRaw(s, endText, tag)
      ensures endText < c <= |s|
      ensures !closes ==> RawEnd(s, endText, tag) == RawEnd(s, c, tag)
    {
      c := endText + 1;
      closes := false;
      if At(s, c) == '/' {
        c, closes := TryClosingTag(s, endText, tag);
        RawEndSkips(s, endText + 1, c, tag);
      } else if At(s, c) == '!' {
        var e := c + 1;
        if e != |s| && s[e] == '-' && e + 1 != |s| && s[e+1] == '-' {
          e := e + 2;
          c := SkipHtmlComment(s, e);
        }
      }
    }

    /** The `while (mpLiteral)` loop: from begin, look for the tag that closes
        the raw text. found says that it was left by the `break`. */
    method ScanLiteral(s: string, begin: nat, tag: RawTag) returns (c: nat, found: bool)
      requires begin < |s|
      ensures c == RawEnd(s, begin, tag)
      ensures found <==> c < |s|
    {
      c := begin;
      while true
        invariant begin <= c <= |s|
        invariant RawEnd(s, begin, tag) == RawEnd(s, c, tag)
        decreases |s| - c
      {
        ghost var from := c;
        while c != |s| && s[c] != '<'
          invariant from <= c <= |s|
          invariant forall i :: from <= i < c ==> s[i] != '<'
          decreases |s| - c
        {
          c := c + 1;
        }
        RawEndSkips(s, from, c, tag);
        if c == |s| { return c, false; }
        var endText := c;
        var closes;
        c, closes := TryRawMarkup(s, endText, tag);
        if closes { return endText, true; }
      }
    }

    /** The branches taken at a '<' outside raw text: report the text before
        it and the markup itself. */
    method ParseMarkup(s: string, begin: nat, c: nat) returns (d: nat)
      requires begin <= c < |s| && MarkupAt(s, c).Some?
      requires currentOffset == begin && literal == None
      modifies this
      ensures d == MarkupAt(s, c).value.end
      ensures events == old(events) + TextEvents(s, begin, c) + [MarkupEvent(s, c)]
      ensures currentOffset == d
      ensures literal == ModeAfter(MarkupEvent(s, c))
    {
      hide SkipTag, SkipComment, IsAlpha, RawTagFor, NameEnd;
      d := c + 1;
      if begin != c { ParseContent(s, begin, c); }
      if IsAlpha(s[d]) {
        d := SkipHtmlTag(s, d);
        ParseHtmlTag(s, c, d);
      } else if s[d] == '/' {
        var e := d + 1;
        if e != |s| && IsAlpha(s[e]) {
          d := SkipHtmlTag(s, d);
          ParseHtmlTag(s, c, d);
        } else {
          d := SkipHtmlTag(s, d);
          ParseComment(s, c, d);
        }
      } else if s[d] == '!' {
        var e := d + 1;
        if e != |s| && s[e] == '-' && e + 1 != |s| && s[e+1] == '-' {
          d := SkipHtmlComment(s, e + 2);
        } else {
          d := SkipHtmlTag(s, d);
        }
        ParseComment(s, c, d);
      } else {
        d := SkipHtmlTag(s, d);
        ParseComment(s, c, d);
      }
    }

    /** One round of the outer loop: from begin to behind the next markup, or
        to the end of the input. */
    method ParsePiece(s: string, begin: nat) returns (next: nat, ghost made: seq<Event>)
      requires begin < |s|
      requires currentOffset == begin
      modifies this
      ensures events == old(events) + made
      ensures Round(s, begin, old(literal), next, literal, made)
      ensures currentOffset == next
    {
      var b, c := begin, begin;
      while c != |s|
        invariant b == begin <= c <= |s|
        invariant currentOffset == begin && events == old(events) && literal == old(literal)
        invariant literal.Some? ==> c == begin
        invariant literal == None ==> NextMarkup(s, begin) == NextMarkup(s, c)
        decreases |s| - c
      {
        if literal.Some? {
          var found;
          c, found := ScanLiteral(s, b, literal.value);
          made := TextEvents(s, b, c);
          if b != c { ParseContent(s, b, c); }
          if !found {
            return c, made;
          }
          literal := None;
          b := c;
          next := ParseMarkup(s, b, c);
          made := made + [MarkupEvent(s, c)];
          return;
        }
        if MarkupAt(s, c).Some? {
          next := ParseMarkup(s, b, c);
          made := TextEvents(s, b, c) + [MarkupEvent(s, c)];
          return;
        }
        c := c + 1;
      }
      made := TextEvents(s, b, c);
      if b != c {
        ParseContent(s, b, c);
      }
      next := c;
    }

    /** The tokenizer makes exactly the callbacks of Tokens. */
    method Parse(s: string)
      modifies this
      ensures events == Tokens(s, 0, None)
      ensures currentOffset == |s|
    {
      literal := None;
      currentOffset := 0;
      events := [];
      var begin := 0;
      while begin != |s|
        invariant begin <= |s|
        invariant currentOffset == begin
        invariant events + Tokens(s, begin, literal) == Tokens(s, 0, None)
        decreases |s| - begin
      {
        ghost var c, mode, before, made := begin, literal, events, [];
        begin, made := ParsePiece(s, begin);
        RoundAdvances(s, c, mode, begin, literal, before, made);
      }
      assert Tokens(s, |s|, literal) == [];
    }
  }
}
