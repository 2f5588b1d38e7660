/** What libhtmlparser/ParserSax.tcc promises about where one piece of markup
    ends and the next begins, stated one character at a time. */
module TokenSpec {
  import opened Chars
  import opened HtmlNodes
  import opened Options

  // ----- scanning helpers -------------------------------------------------

  /** The first index from c on that holds ch, or the end of the input. */
  function FindChar(s: string, c: nat, ch: char): (r: nat)
    requires c <= |s|
    ensures c <= r <= |s|
    ensures forall i :: c <= i < r ==> s[i] != ch
    ensures r < |s| ==> s[r] == ch
    decreases |s| - c
  {
    if c == |s| || s[c] == ch then c else FindChar(s, c + 1, ch)
  }

  /** The first index from c on that is not blank. */
  function SkipSpaces(s: string, c: nat): (r: nat)
    requires c <= |s|
    ensures c <= r <= |s|
    ensures forall i :: c <= i < r ==> IsSpace(s[i])
    ensures r < |s| ==> !IsSpace(s[r])
    decreases |s| - c
  {
    if c == |s| || !IsSpace(s[c]) then c else SkipSpaces(s, c + 1)
  }

  function NameEnd(s: string, c: nat, end: nat): (r: nat)
    requires c <= end <= |s|
    ensures c <= r <= end
    ensures forall i :: c <= i < r ==> IsAlnum(s[i])
    ensures r < end ==> !IsAlnum(s[r])
    decreases end - c
  {
    if c == end || !IsAlnum(s[c]) then c else NameEnd(s, c + 1, end)
  }

  /** The end of the tag whose inside is being read from c: just behind the
      first '>' that is outside a closed quoted attribute value. */
  function SkipTag(s: string, c: nat): (r: nat)
    requires c <= |s|
    ensures c <= r <= |s|
    ensures c < |s| ==> c < r
    decreases |s| - c
  {
    if c == |s| then c
    else if s[c] == '>' then c + 1
    else if s[c] == '=' then SkipTag(s, AfterValue(s, c))
    else SkipTag(s, c + 1)
  }

  /** Behind an '=' at c: behind the quoted value when one is opened and
      closed, behind the lone quote when it is never closed, and else behind
      the blanks. */
  function AfterValue(s: string, c: nat): (r: nat)
    requires c < |s| && s[c] == '='
    ensures c < r <= |s|
  {
    var v := SkipSpaces(s, c + 1);
    if v < |s| && (s[v] == '"' || s[v] == '\'') then
      var q := FindChar(s, v + 1, s[v]);
      if q < |s| then q + 1 else v + 1
    else v
  }

  /** "--", blanks, '>' (or the end of the input in place of '>') at c. */
  predicate EndsComment(s: string, c: nat)
    requires c <= |s|
  {
    && c + 1 < |s| && s[c] == '-' && s[c+1] == '-'
    && var e := SkipSpaces(s, c + 2);
       e == |s| || s[e] == '>'
  }

  function CommentTail(s: string, c: nat): (r: nat)
    requires c <= |s| && EndsComment(s, c)
    ensures c + 2 <= r <= |s|
  {
    var e := SkipSpaces(s, c + 2);
    if e == |s| then e else e + 1
  }

  /** The end of the comment whose inside is being read from c. */
  function SkipComment(s: string, c: nat): (r: nat)
    requires c <= |s|
    ensures c <= r <= |s|
    decreases |s| - c
  {
    if c == |s| then c
    else if EndsComment(s, c) then CommentTail(s, c)
    else SkipComment(s, c + 1)
  }

  /** "--" at c. */
  predicate Dashes(s: string, c: nat) {
    c + 1 < |s| && s[c] == '-' && s[c+1] == '-'
  }

  // ----- markup -----------------------------------------------------------

  datatype Kind = OpenTag | CloseTag | CommentLike

  datatype Markup = Markup(kind: Kind, end: nat)

  /** The markup that begins at the '<' at c, if any does. */
  function MarkupAt(s: string, c: nat): (m: Option<Markup>)
    requires c < |s|
    ensures m.Some? ==> c + 1 < m.value.end <= |s| && s[c] == '<'
    ensures m.Some? && m.value.kind.OpenTag? ==> IsAlpha(s[c+1])
    ensures m.Some? && m.value.kind.CloseTag? ==>
              c + 2 < m.value.end && s[c+1] == '/' && IsAlpha(s[c+2])
  {
    if s[c] != '<' || c + 1 == |s| then None
    else
      var d := s[c+1];
      if IsAlpha(d) then Some(Markup(OpenTag, SkipTag(s, c + 1)))
      else if d == '/' then
        if c + 2 < |s| && IsAlpha(s[c+2]) then
          assert SkipTag(s, c + 1) == SkipTag(s, c + 2);
          Some(Markup(CloseTag, SkipTag(s, c + 1)))
        else Some(Markup(CommentLike, SkipTag(s, c + 1)))
      else if d == '!' then
        if Dashes(s, c + 2) then Some(Markup(CommentLike, SkipComment(s, c + 4)))
        else Some(Markup(CommentLike, SkipTag(s, c + 1)))
      else if d == '?' || d == '%' then Some(Markup(CommentLike, SkipTag(s, c + 1)))
      else None
  }

  /** The first index from c on at which markup begins, or the end. */
  function NextMarkup(s: string, c: nat): (r: nat)
    requires c <= |s|
    ensures c <= r <= |s|
    ensures forall i :: c <= i < r ==> MarkupAt(s, i).None?
    ensures r < |s| ==> MarkupAt(s, r).Some?
    decreases |s| - c
  {
    if c == |s| || MarkupAt(s, c).Some? then c else NextMarkup(s, c + 1)
  }

  // ----- raw text ---------------------------------------------------------

  /** The elements whose content is raw text: the rows of literal_mode_elem. */
  datatype RawTag = Script | Style | Xmp | Plaintext | Textarea {
    function Name(): string {
      match this
      case Script => "script"
      case Style => "style"
      case Xmp => "xmp"
      case Plaintext => "plaintext"
      case Textarea => "textarea"
    }
  }

  const LITERAL_MODE_ELEM: seq<RawTag> := [Script, Style, Xmp, Plaintext, Textarea]

  /** The raw-text element with this name, ignoring case. */
  function RawTagFor(name: string): Option<RawTag> {
    if EqualsIgnoreCase(name, Script.Name()) then Some(Script)
    else if EqualsIgnoreCase(name, Style.Name()) then Some(Style)
    else if EqualsIgnoreCase(name, Xmp.Name()) then Some(Xmp)
    else if EqualsIgnoreCase(name, Plaintext.Name()) then Some(Plaintext)
    else if EqualsIgnoreCase(name, Textarea.Name()) then Some(Textarea)
    else None
  }

  /** name occurs at c, ignoring case. */
  predicate NameAt(s: string, c: nat, name: string) {
    c + |name| <= |s| && EqualsIgnoreCase(s[c..c+|name|], name)
  }

  /** "</name", blanks, ">" at c: the tag that closes raw text. No tag closes
      plaintext. */
  predicate ClosesRaw(s: string, c: nat, tag: RawTag)
    requires c <= |s|
  {
    && c + 1 < |s| && s[c] == '<' && s[c+1] == '/'
    && tag != Plaintext
    && NameAt(s, c + 2, tag.Name())
    && At(s, SkipSpaces(s, c + 2 + |tag.Name()|)) == '>'
  }

  predicate OpensComment(s: string, c: nat) {
    c + 1 < |s| && s[c] == '<' && s[c+1] == '!' && Dashes(s, c + 2)
  }

  /** The end of the raw text read from c on: the first closing tag outside a
      comment, or the end of the input. */
  function RawEnd(s: string, c: nat, tag: RawTag): (r: nat)
    requires c <= |s|
    ensures c <= r <= |s|
    ensures r < |s| ==> ClosesRaw(s, r, tag)
    decreases |s| - c
  {
    if c == |s| || ClosesRaw(s, c, tag) then c
    else if OpensComment(s, c) then RawEnd(s, SkipComment(s, c + 4), tag)
    else RawEnd(s, c + 1, tag)
  }

  // ----- the events -------------------------------------------------------

  function MarkupEvent(s: string, c: nat): (e: Event)
    requires c < |s| && MarkupAt(s, c).Some?
  {
    var m := MarkupAt(s, c).value;
    var text := s[c..m.end];
    match m.kind
    case CommentLike => FoundComment(CommentNode(text, c))
    case OpenTag => FoundTag(TagNode(text, s[c+1..NameEnd(s, c + 1, m.end)], c), false)
    case CloseTag => FoundTag(TagNode(text, s[c+2..NameEnd(s, c + 2, m.end)], c), true)
  }

  /** The raw-text mode that an event leaves the tokenizer in. */
  function ModeAfter(e: Event): Option<RawTag> {
    if e.FoundTag? && !e.isEnd then RawTagFor(e.node.tagName) else None
  }

  /** Where the text that is read from c in the given mode ends. */
  function TextEnd(s: string, c: nat, mode: Option<RawTag>): (r: nat)
    requires c <= |s|
    ensures c <= r <= |s|
    ensures r < |s| ==> MarkupAt(s, r).Some?
  {
    match mode
    case Some(tag) => RawEnd(s, c, tag)
    case None => NextMarkup(s, c)
  }

  function TextEvents(s: string, b: nat, e: nat): seq<Event>
    requires b <= e <= |s|
  {
    if b < e then [FoundText(TextNode(s[b..e], b))] else []
  }

  /** Every event of the input from c on. */
  function Tokens(s: string, c: nat, mode: Option<RawTag>): (events: seq<Event>)
    requires c <= |s|
    decreases |s| - c
  {
    var e := TextEnd(s, c, mode);
    if e == |s| then TextEvents(s, c, e)
    else
      var m := MarkupEvent(s, e);
      TextEvents(s, c, e) + [m] + Tokens(s, MarkupAt(s, e).value.end, ModeAfter(m))
  }
}
