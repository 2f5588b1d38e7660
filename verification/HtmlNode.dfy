/** libhtmlparser/Node.h: what the tokenizer hands to the tree builder. */
module HtmlNodes {
  import opened Seqs

  datatype HtmlNode = HtmlNode(
    text: string,
    closingText: string,
    offset: nat,
    length: int,
    tagName: string,
    isTag: bool,
    isComment: bool)

  /** One callback of the tokenizer. */
  datatype Event =
    | FoundTag(node: HtmlNode, isEnd: bool)
    | FoundText(node: HtmlNode)
    | FoundComment(node: HtmlNode)

  function TextNode(text: string, offset: nat): HtmlNode {
    HtmlNode(text, "", offset, |text|, text, false, false)
  }

  function CommentNode(text: string, offset: nat): HtmlNode {
    HtmlNode(text, "", offset, |text|, text, false, true)
  }

  function TagNode(text: string, name: string, offset: nat): HtmlNode {
    HtmlNode(text, "", offset, |text|, name, true, false)
  }

  /** The concatenated source text of a run of events. */
  function Source(events: seq<Event>): string {
    if events == [] then "" else Source(events[..|events|-1]) + events[|events|-1].node.text
  }

  lemma {:induction false} SourceConcat(a: seq<Event>, b: seq<Event>)
    ensures Source(a + b) == Source(a) + Source(b)
    decreases |b|
  {
    if b == [] {
      assert a + b == a;
    } else {
      var b' := b[..|b|-1];
      assert (a + b)[..|a + b|-1] == a + b';
      SourceConcat(a, b');
      Regroup(Source(a), Source(b'), b[|b|-1].node.text);
    }
  }
}
