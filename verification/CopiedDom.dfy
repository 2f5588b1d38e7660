/** libspider/Crawler.cpp: parseHyperlinks walks over a copy of the parsed
    document. */
module CopiedDom {
  import opened DomModel
  import opened Forests
  import opened HtmlLinks
  import opened HtmlTrees
  import opened HtmlCopies
  import opened CopyWalk
  import opened ParserDomModule

  /** Written out, the copy gives the page back; none of its nodes belongs to
      the parser. */
  method ParsedCopy(html: string) returns (dom: HtmlTree, parser: ParserDom)
    ensures fresh(dom) && dom.Valid() && WF(dom.forest) && parser.tree.Valid() && dom.nodes !! parser.tree.nodes
    ensures TOP in dom.forest.kids && |dom.forest.kids[TOP]| == 3 && dom.forest.kids[TOP][1] in dom.forest.par
    ensures Serialize(TreeOf(dom.forest, dom.forest.kids[TOP][1])) == html
  {
    hide HtmlTree.Valid, WF, TreeOf, Serialize;
    dom := new HtmlTree();
    parser := new ParserDom();
    parser.ParseTree(html);
    parser.tree.BoundIsFree();
    RootPlace(parser.tree.forest, parser.tree.head.id, parser.tree.feet.id, parser.spine[0]);
    CopyTree(dom, parser.tree);
    assert SameKid(parser.tree.forest, TOP, dom.forest, TOP, 1);
  }
}
