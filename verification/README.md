# Crowdspider, verified

Crowdspider is a multi-threaded web crawler with its own HTML parser, a generic pointer tree, a slab
allocator, streaming hashes, a URL class and an INI reader. This project models those parts in Dafny in the
form the C++ has (classes with linked nodes, loops over cursors and buffers, a step system for the threads)
and proves what they are for.

* **A page is never damaged by parsing.** For every input, writing the finished document out as text, then
  children, then closing text gives exactly the input back, whatever is misnested, unmatched or left open.
  This is proved on values (`DomModel.LosslessParse`), for the linked tree that `ParserDom` builds
  (`ParserDomModule.ParserDom.ParseTree`), and for the node-by-node copy of it that the crawler walks over
  (`CopiedDom.ParsedCopy`). Spans of closed elements are the slices that they claim to be, and all spans nest
  or are disjoint. What every event is, and which node at which depth it makes, is also told without the tokenizer
  and without the stack, by characters and places (`TokenMeaning.TokensMean`) and from the events alone
  (`DomMeaning.TreeOfEvents`).
* **The five pointers of every node always represent one ordered forest.** `HtmlTree.Valid` ties the links to a
  ghost forest; every operation of the tree refines an operation on forests. Iterators agree with
  document order, `flatten` keeps it, `reparent` loses no node, and `replace` and `copy_` give isomorphic copies
  made of fresh nodes only.
* **Slabs** stay ordered full, partial, empty, no live object is handed out twice, and no released slab is in the
  list: always, if `reclaim` subtracts what it releases from its counter. It adds, as the code stands; then all this
  holds up to the first call of `freeObj` that releases the very slab that it moves. `Slabs.Cache.FreeObj` says
  exactly which calls do, and `Slabs.ReleasesMovedSlab` is a run that ends with one.
* **Workers** of the crawler lose no wake-up, cannot deadlock, fetch at most 1 + k + k² + k³ + k⁴ pages when a page
  has at most k usable links, and leave nothing out: when they come to rest, every entry has been dealt with, and
  every link of every page up to depth 3 was found in a list or went into the queue (`CrawlerVisits.CrawlComplete`).
* **MD5 and SHA** give the digest of the padded message for every way of cutting it into calls.
* **URLs and INI files.** The path normaliser is a stack machine over segments and idempotent, and agrees with
  section 5.2.4 of RFC 3986 exactly where `DotSegments.AgreesAlways` says. Printing a URL or an INI file undoes
  reading it exactly under the conditions of `Uris.IdentityExactly` and `IniExact.SaveLoadExactly`.

## Files

| files | part |
|---|---|
| `TokenSpec`, `ParserSax`, `TokenTheorems`, `TokenMeaning`, `HtmlNode`, `Chars` | the tokenizer: specification, class, theorems, and what every event is by characters and places |
| `DomModel`, `DomTheorems`, `DomMeaning` | the document on values: a stack of open elements, and the tree told from the events alone |
| `Forest`, `ForestErase`, `ForestOrder`, `EraseOrder`, `ForestCopy`, `ForestMove`, `ForestPlaces` | ordered forests and their operations |
| `HtmlLinks`, `EraseLinks`, `ReplaceLinks`, `ReparentLinks` | what the assignments of each operation do to the links |
| `HtmlTree`, `HtmlIterators`, `HtmlCopy`, `CopyWalk` | the linked tree itself, its iterators and its copies |
| `DomForest`, `ParserDom`, `CopiedDom` | the tree builder, refining `DomModel` on the linked tree |
| `ListHead`, `SlabCache` | the ring list and the slab allocator |
| `Crawler`, `CrawlerTheorems`, `CrawlerVisits`, `SaveNames` | the worker pool as a step system, what is seen of its runs, and the names of saved pages |
| `PathNormalizer`, `DotSegments`, `Uri`, `UriFields`, `CStrings` | URLs |
| `Bytes`, `Md5`, `Sha`, `HashFacts` | streaming hashes |
| `IniFormat`, `IniTheorems`, `IniExact`, `IniLaws`, `IniFile`, `IniLoop` | the INI file |
| `Seqs`, `Options` | helpers |

## Where the code and its intention part

* `libspider/Slab.cpp:70` adds the number of released slabs to `numFreeSlabs`; lines 119 and 160 count on a
  subtraction. `Cache.counterStep` is 1 for the code as it stands and -1 for the subtraction, and all contracts
  hold for both and for every value that the counter can have. `Cache.Drift` is by how much it is too high; every
  operation says how that changes, and `Slabs.CounterDrifts` is a run after which the counter is wrong.
  With a counter that is too high `freeObj` can ask `reclaim` for more empty slabs than there are. It then
  releases the slab that it is about to move exactly if this slab has one object left, no partly used slab
  behind it, and `numFreeSlabs + 1 - MAX_FREE_SLABS` exceeds the number of empty slabs (`Cache.ReleasesMoving`).
  That happens when nine slabs of two objects are emptied and one object is then taken and given back three times
  (`Slabs.ReleasesMovedSlab`). With the subtraction it never happens.
* `IniFile::parse_config` cuts a trailing comment off at `last - first` instead of `last`, and looks for a `#` behind
  a tab, a `#` behind a space, a `//` behind a tab and a `//` behind a space one after the other instead of for the
  first of them. With n blanks in front of the value, m the first place at which a comment may begin, and c the
  place that the searches settle on, the value is kept exactly if `c - n` is behind its last character and at most
  `m + 1` (`IniTheorems.CommentCut`). Without blanks in front that means `c == m`. ` ab #c` loses the `b`,
  `ab #c<TAB>#d` keeps `#c`, and with three blanks in front of that the two faults cancel out.
* `IniFile::parse_config` never ends on a line of 1024 characters or more: `getline` fails, and a stream that has
  failed never reaches its end (`IniLoop.LoopEnds`).
* `IniFile::parse_config` hands its line buffer on as a `char *`, so a line ends at its first NUL, while
  `save_config` writes NULs out: a value of `a`, NUL, `b` comes back as `a` (`IniExact.NulCut`).
* An INI file does not give back every map. `IniExact.SaveLoadExactly` says which ones it does: those in which no
  section, key or value is empty, all are free of ends of line and NULs, keys and values have no blanks at their
  edges, no value holds the beginning of a comment, no key holds `=`, and no line `key=value` looks like a heading
  (`IniTheorems.CleanEntry`). The section of a map key ends at the first middle string; with a `*` in its name,
  `write` can put two different sections and keys under one map key (`IniTheorems.MapKeyTells` is for names without),
  but what is under it is saved and loaded all the same.
* `normalize_slashs` drops a final `..` without going one segment back and drops empty segments, unlike section
  5.2.4 of RFC 3986: `/a/b/..` becomes `/a/b/` instead of `/a/`, and `/a//b` becomes `/a/b`. An absolute path comes
  out the same exactly if both are left with the same segments, and unless it ends in `..` with the same number of
  them (`DotSegments.AgreesAlways`). So they differ where 5.2.4 is left with an empty segment
  (`DotSegments.EmptyLeftDiffers`), and without empty segments they agree exactly if the last segment is not `..` or
  no segment is left in front of it (`DotSegments.AgreesExactly`).
* `tree::copy_` clears the tree first, so that a tree assigned to itself ends up empty (`HtmlCopies.CopyTree`).

## Model

| member | source | states |
|---|---|---|
| `ParserSaxModule.ParserSax.SkipHtmlComment` | libhtmlparser/ParserSax.tcc:325-338 | the loop with its step back stops where the comment ends by the specification |
| `ParserSaxModule.ParserSax.SkipAttributeValue` | libhtmlparser/ParserSax.tcc:373-398 | behind an `=`: a quoted value is passed over, an unclosed quote is one character |
| `ParserSaxModule.ParserSax.SkipHtmlTag` | libhtmlparser/ParserSax.tcc:365-404 | the loop stops where the tag ends by the specification |
| `ParserSaxModule.ParserSax.LookupRawTag` | libhtmlparser/ParserSax.tcc:288-306 | the search of the table finds the raw-text element of this name, ignoring case |
| `ParserSaxModule.ParserSax.ParseHtmlTag` | libhtmlparser/ParserSax.tcc:272-321 | the event of the markup at b is made, the offset moves behind it, raw-text mode follows from the name |
| `ParserSaxModule.ParserSax.MatchName` | libhtmlparser/ParserSax.tcc:68-73 | the name is matched to its end if and only if it stands there, ignoring case; no `<` is passed |
| `ParserSaxModule.ParserSax.TryClosingTag` | libhtmlparser/ParserSax.tcc:65-93 | the answer is yes if and only if the closing tag of the raw-text element stands here |
| `ParserSaxModule.ParserSax.TryRawMarkup` | libhtmlparser/ParserSax.tcc:62-114 | a `<` that does not close raw text is skipped without missing the end, comments included |
| `ParserSaxModule.ParserSax.ScanLiteral` | libhtmlparser/ParserSax.tcc:52-115 | the loop over raw text stops at its end by the specification |
| `ParserSaxModule.ParserSax.ParseMarkup` | libhtmlparser/ParserSax.tcc:117-211 | pending text and the markup become events, each with its offset |
| `ParserSaxModule.ParserSax.ParsePiece` | libhtmlparser/ParserSax.tcc:43-222 | one round of the outer loop makes exactly the events up to the next markup |
| `ParserSaxModule.ParserSax.Parse` | libhtmlparser/ParserSax.tcc:32-227 | for every input the loops end and the callbacks are the events of the specification, in order |
| `TokenTheorems.TokensPartitionInput` | libhtmlparser/ParserSax.tcc:32-227 | the events are contiguous slices that cover the input in order; each offset is the sum of the earlier lengths |
| `TokenTheorems.TokensSource` | libhtmlparser/ParserSax.tcc:32-227 | joined, the texts of all events are the input |
| `TokenTheorems.TokensWellShaped` | libhtmlparser/ParserSax.tcc:229-321 | no event is empty, a length is that of its text, tags have a name, and two texts are never adjacent |
| `TokenTheorems.RawEndIsFirst` | libhtmlparser/ParserSax.tcc:52-115 | raw text ends at the first closing tag outside the comments, where an opening inside a comment does not count, or with the input if there is none |
| `TokenTheorems.RawCloserEvent` | libhtmlparser/ParserSax.tcc:82-91 | what closes raw text is read as a closing tag of that name |
| `TokenTheorems.RawTextTheorem` | libhtmlparser/ParserSax.tcc:288-306 | behind every opening raw-text tag come at most one text and then its closing tag, or the end of the input; plaintext never closes |
| `TokenTheorems.TagEndsAtAngle` | libhtmlparser/ParserSax.tcc:365-404 | a tag ends behind the first `>` outside the quoted values that are closed, or with the input if there is none |
| `TokenTheorems.CommentEndsAtFirst` | libhtmlparser/ParserSax.tcc:325-338 | a comment ends at the first `--`, blanks, `>`, although the cursor moves back in between |
| `TokenMeaning.TokensMean` | libhtmlparser/ParserSax.tcc:32-338 | every event of every input by characters and places: no text holds the beginning of markup; a `<` with a letter is an opening and `</` with a letter a closing tag, whose name is the longest run of letters and digits; `<!--` is a comment up to the first close; other `</`, `<!`, `<?` and `<%` are comments that end as tags do; behind the five raw-text elements the text goes to their closing tag |
| `DomModel.StepKeeps` | libhtmlparser/ParserDom.cc:40-125 | a callback keeps the spans of all elements and adds exactly its own text to the document |
| `DomModel.RunKeeps` | libhtmlparser/ParserDom.cc:40-125 | so does every run of callbacks that covers a stretch of the input |
| `DomModel.LosslessParse` | libhtmlparser/ParserDom.cc:22-125 | for every input, the finished document written out is the input |
| `DomTheorems.SpanTheorem` | libhtmlparser/ParserDom.cc:88-91 | a closed element's slice of the input is its subtree with its closing tag; the root's is the whole input; a leaf's is its text |
| `DomTheorems.SpansNestOrAreDisjoint` | libhtmlparser/ParserDom.cc:34-38 | any two spans are nested or disjoint, and all are within that of the root |
| `DomTheorems.CloseKeepsOrder` | libhtmlparser/ParserDom.cc:105-114 | giving up the elements on the skipped way changes nothing in document order but the closed element's own datum |
| `DomTheorems.SkippedBecomeLeaves` | libhtmlparser/ParserDom.cc:107-113 | every given-up element is a childless direct child of the closed one, and so is what was finished below it |
| `DomTheorems.OpenElements` | libhtmlparser/ParserDom.cc:66-103 | after every event the open elements are those that a list of open names predicts |
| `DomTheorems.WellNestedRoundTrip` | libhtmlparser/ParserDom.cc:52-103 | the events of a well-nested tree build that tree again, in any context |
| `DomMeaning.TreeOfEvents` | libhtmlparser/ParserDom.cc:22-125 | for every input, the nodes of the tree in order, each with its depth, told from the events alone: which tag closes which, what each event makes, and which elements hold what comes behind them |
| `DomMeaning.TagsFromOpenings` | libhtmlparser/ParserDom.cc:52-60 | every tag in the tree but the root has text, name and place of an opening tag of the input |
| `DomMeaning.ClosingTagKept` | libhtmlparser/ParserDom.cc:66-123 | every closing tag is the closing text of just one element, the innermost open one of its name, or a comment with its text in its place |
| `DomMeaning.OnlyTagsHaveChildren` | libhtmlparser/ParserDom.cc:40-50 | texts, comments and unmatched closing tags have no children |
| `HtmlTrees.HtmlTree.constructor` | libhtmlparser/tree.h:416-432 | two linked sentinels and no node between them |
| `HtmlTrees.HtmlTree.AppendChild` | libhtmlparser/tree.h:694-718 | the forest has one new last child at position and is otherwise the same; the links represent it |
| `HtmlTrees.HtmlTree.Insert` | libhtmlparser/tree.h:752-772 | the forest has a new node in front of place, or in front of feet if place is null; the links represent it |
| `HtmlTrees.HtmlTree.Flatten` | libhtmlparser/tree.h:963-986 | the children of position have become its next siblings; the links represent that |
| `HtmlTrees.HtmlTree.EraseChildren` | libhtmlparser/tree.h:477-491 | what is below the node is freed, each node exactly once, and nothing else is written |
| `HtmlTrees.HtmlTree.Erase` | libhtmlparser/tree.h:502-517 | the subtree is gone from the forest and from the nodes; the links represent the rest |
| `HtmlTrees.HtmlTree.Clear` | libhtmlparser/tree.h:469-474 | only the sentinels stay |
| `HtmlTrees.HtmlTree.ReplaceByLeaf` | libhtmlparser/tree.h:864-890 | the subtree is freed and a fresh leaf stands in its place |
| `HtmlTrees.HtmlTree.Reparent` | libhtmlparser/tree.h:991-1031 | a run of siblings has become the last children of position, the same list included; the links represent that |
| `HtmlTrees.HtmlTree.LastOfRun` | libhtmlparser/tree.h:996-999 | the loop finds the last sibling of the run |
| `HtmlTrees.HtmlTree.ReparentChildren` | libhtmlparser/tree.h:1036-1040 | all children of one node have become the last children of another |
| `HtmlTrees.HtmlTree.Begin` | libhtmlparser/tree.h:522-525 | begin is the node behind head |
| `HtmlLinks.LinkLastConsistent` | libhtmlparser/tree.h:702-717 | the assignments of append_child lead from the links of a forest to those of the forest with the new child |
| `HtmlLinks.LinkBeforeConsistent` | libhtmlparser/tree.h:758-771 | the same of insert |
| `HtmlLinks.LinkFlatConsistent` | libhtmlparser/tree.h:965-983 | the same of flatten |
| `EraseLinks.EraseConsistent` | libhtmlparser/tree.h:502-513 | the same of erase |
| `ReplaceLinks.ReplaceConsistent` | libhtmlparser/tree.h:866-887 | the same of the first part of replace |
| `ReparentLinks.MoveConsistent` | libhtmlparser/tree.h:1000-1028 | the same of reparent |
| `Forests.FlattenedWF` | libhtmlparser/tree.h:963-986 | after flatten every node is still in exactly one list of children, once, and there is no cycle |
| `ForestErase.ErasedWF` | libhtmlparser/tree.h:495-518 | the same after erase |
| `ForestMove.MovedWF` | libhtmlparser/tree.h:991-1031 | the same after reparent |
| `ForestMove.MovedTree` | libhtmlparser/tree.h:991-1031 | every subtree that holds neither the old nor the new parent stays as it is |
| `ForestMove.RunHolds` | libhtmlparser/tree.h:1021-1028 | so the subtrees that move stay as they are |
| `ForestMove.MovedDocument` | libhtmlparser/tree.h:991-1031 | reparent permutes the document: no node is lost or doubled, no datum changes |
| `ForestOrder.DocumentOnce` | libhtmlparser/tree.h:1548-1563 | document order holds every node exactly once |
| `ForestOrder.DocumentSplit` | libhtmlparser/tree.h:1548-1581 | around a node the document is what comes before it, the node, its subtree and what comes after |
| `ForestOrder.StepsInDocument` | libhtmlparser/tree.h:1548-1581 | the rules of ++ and -- are one step forward and one step back in the document, so -- undoes ++ |
| `ForestOrder.FlattenKeepsDocument` | libhtmlparser/tree.h:963-986 | flatten leaves document order as it is |
| `ForestPlaces.InsertedThere` | libhtmlparser/tree.h:694-772 | the new node stands right in front of the k-th child, or last; no other list changes |
| `ForestPlaces.FlattenedThere` | libhtmlparser/tree.h:963-986 | the children follow their old parent in its list |
| `ForestPlaces.ErasedThere` | libhtmlparser/tree.h:495-518 | every list is without the erased nodes |
| `ForestPlaces.ReplacedThere` | libhtmlparser/tree.h:864-890 | the new leaf stands where the old node stood |
| `ForestPlaces.MovedThere` | libhtmlparser/tree.h:991-1031 | the run stands last in its new list, in its order |
| `EraseOrder.ErasedDocument` | libhtmlparser/tree.h:495-519 | document order after erase is the old one without the erased nodes, which stood in one piece |
| `ForestOrder.SeekIsFirst` | libhtmlparser/tree.h:632-666 | the node sought is the first one of its depth |
| `HtmlIterators.PreOrderIterator.Next` | libhtmlparser/tree.h:1548-1563 | ++ goes to the successor, or past the subtree when its children are skipped |
| `HtmlIterators.PreOrderIterator.Prev` | libhtmlparser/tree.h:1567-1581 | -- goes to the predecessor |
| `HtmlIterators.NextAtSameDepth` | libhtmlparser/tree.h:632-666 | the jumps end, and find the next node of the same depth in document order, or none |
| `HtmlIterators.EraseAt` | libhtmlparser/tree.h:495-519 | the subtree is erased, and the iterator given back stands at the place in the document where it was, on a node that is still there |
| `HtmlIterators.DocumentEnds` | libhtmlparser/tree.h:522-531 | the document runs from head to feet and begin is its second node |
| `HtmlIterators.Size` | libhtmlparser/tree.h:1257-1266 | walking from begin to end counts every node between the sentinels once |
| `CopyWalk.WalkDown` | libhtmlparser/tree.h:896-899 | the step to a first child extends the copied spine |
| `CopyWalk.WalkUp` | libhtmlparser/tree.h:901-905 | a node whose last child is copied is itself copied whole |
| `CopyWalk.WalkSide` | libhtmlparser/tree.h:906-909 | the step to a next sibling keeps what is copied to its left |
| `CopyWalk.SpineKept` | libhtmlparser/tree.h:894-911 | a node appended at the end of the spine disturbs no subtree that is already copied |
| `ForestCopy.AppendedRest` | libhtmlparser/tree.h:899-909 | a node that joins the copy changes nothing outside of it |
| `CopyWalk.RestTree` | libhtmlparser/tree.h:857-914 | replacing one subtree leaves every tree beside it as it was |
| `CopyWalk.FollowsAppended` | libhtmlparser/tree.h:893-911 | while the copy grows in the same tree, the source looks unchanged to the walk |
| `HtmlCopies.GoUp` | libhtmlparser/tree.h:902-905 | the inner loop stops at the root or at a node with a next sibling; all it leaves is copied whole |
| `HtmlCopies.CopyBelow` | libhtmlparser/tree.h:890-911 | the loop ends, and the copy has the tree of the source |
| `HtmlCopies.Replace` | libhtmlparser/tree.h:857-914 | position's subtree has given way to a tree isomorphic to the source with the same data and order, made of fresh nodes only; the rest of the tree and the source are unchanged |
| `HtmlCopies.InsertTops` | libhtmlparser/tree.h:451-456 | a fresh node stands for every tree of the source |
| `HtmlCopies.ReplaceTops` | libhtmlparser/tree.h:457-465 | each gives way to a copy of its tree, in order |
| `HtmlCopies.CopyTree` | libhtmlparser/tree.h:448-466 | all trees are copied in order with fresh nodes and the source is unchanged; a tree copied to itself is emptied |
| `DomForest.RepresentsLeaf` | libhtmlparser/ParserDom.cc:40-50 | append_child at the current node refines a leaf below the innermost open element |
| `DomForest.RepresentsPush` | libhtmlparser/ParserDom.cc:54-60 | append_child refines opening an element; the current node stays at the end of the rightmost spine |
| `DomForest.RepresentsFlatten` | libhtmlparser/ParserDom.cc:109-113 | flatten refines giving up the innermost open element |
| `DomForest.RepresentsPop` | libhtmlparser/ParserDom.cc:93-95 | the step to the parent refines closing an element |
| `DomForest.RepresentsZip` | libhtmlparser/ParserDom.cc:17-21 | the tree at an open element is the one that the stack stands for |
| `ParserDomModule.ParserDom.BeginParsing` | libhtmlparser/ParserDom.cc:22-32 | whatever the tree held, it holds one root, which is the open element |
| `ParserDomModule.ParserDom.FindOpen` | libhtmlparser/ParserDom.cc:66-103 | the walk upwards ends at the innermost open element of this name, or at the root, and records the way |
| `ParserDomModule.ParserDom.GiveUp` | libhtmlparser/ParserDom.cc:105-114 | flattening the recorded nodes in order gives up all open elements below the match |
| `ParserDomModule.ParserDom.CloseTag` | libhtmlparser/ParserDom.cc:84-114 | a matched closing tag refines closing on the stack |
| `ParserDomModule.ParserDom.FoundTag` | libhtmlparser/ParserDom.cc:52-125 | every tag callback on the linked tree refines the step on the stack; an unmatched closing tag becomes a comment |
| `ParserDomModule.ParserDom.FoundText` | libhtmlparser/ParserDom.cc:46-50 | so does a text |
| `ParserDomModule.ParserDom.FoundComment` | libhtmlparser/ParserDom.cc:40-44 | so does a comment |
| `ParserDomModule.ParserDom.EndParsing` | libhtmlparser/ParserDom.cc:34-38 | the root's span is the whole input |
| `ParserDomModule.ParserDom.ParseTree` | libhtmlparser/ParserDom.cc:17-21 | the linked tree has exactly the tree of the input, which written out is the input |
| `CopiedDom.ParsedCopy` | libspider/Crawler.cpp:148-157 | the copy that parseHyperlinks walks over, written out, is the page; it shares no node with the parser |
| `Rings.ListHead.Add` | libspider/List.cpp:49-55 | the ring has the item in front of this node and is otherwise the same |
| `Rings.ListHead.Remove` | libspider/List.cpp:28-33 | the ring is without this node, which is left alone |
| `Slabs.Slab.constructor` | libspider/Slab.cpp:88-99 | the free list holds every object of the slab once |
| `Slabs.Slab.Take` | libspider/Slab.cpp:124-128 | an object that was not live becomes live; the free list ends exactly when the slab is full |
| `Slabs.Slab.Put` | libspider/Slab.cpp:144-151 | a live object becomes free |
| `Slabs.Slab.LiveCount` | libspider/Slab.cpp:88-99 | inuse is the number of live objects |
| `Slabs.OrderedFull` | libspider/Slab.cpp:151-158 | moving a slab that was full behind the full ones keeps the order full, partial, empty |
| `Slabs.OrderedEmpty` | libspider/Slab.cpp:159-171 | moving a slab that is empty now to the end keeps the order, even when empty slabs were released in between |
| `Slabs.Cache.NoneFree` | libspider/Slab.cpp:115-116 | firstNotFull is the list head exactly when every slab is full |
| `Slabs.Cache.NewSlab` | libspider/Slab.cpp:77-105 | one empty slab more at the end, which firstNotFull points to; no live object changes |
| `Slabs.Cache.AllocObj` | libspider/Slab.cpp:110-133 | whatever the counter says, the object was not live, is of the first slab with a free one, and a slab is made exactly if there is none; a wrong counter stays as wrong |
| `Slabs.Cache.Reclaim` | libspider/Slab.cpp:46-72 | as many slabs as are asked for and empty are released from the end on, for every n, also when the slab that freeObj is moving is one of them; no live object goes with them, and firstNotFull is where it belongs |
| `Slabs.Cache.FreeFull` | libspider/Slab.cpp:151-158 | a slab that was full becomes the first that is not |
| `Slabs.Cache.FreeLast` | libspider/Slab.cpp:159-171 | a slab that becomes empty goes to the end; it is released on the way exactly if the count asks for more empty slabs than there are and none but empty ones stand behind it |
| `Slabs.Cache.FreeObj` | libspider/Slab.cpp:138-172 | for every counter: only this object stops being live, and the list stays intact if and only if the slab was not released while it moved, which is told from the state before; from a right counter at most eight slabs stay empty, and the counter stays right if and only if nothing was released or line 70 subtracts |
| `Slabs.Cache.ReclaimEmpty` | libspider/Slab.cpp:46-72 | the empty slabs, up to 0xffff of them, and no others are released; a right counter stays right if and only if there were none or line 70 subtracts |
| `Slabs.CounterDrifts` | libspider/Slab.cpp:70 | a cache of one slab, emptied and reclaimed by the code as it stands, counts two empty slabs where there is none |
| `Slabs.ReleasesMovedSlab` | libspider/Slab.cpp:138-172 | a run of the code as it stands after which a released slab is in the list |
| `CrawlerTheorems.MutualExclusion` | libspider/Crawler.cpp:462-545 | two workers are never inside the same lock |
| `CrawlerTheorems.LocksKept` | libspider/Crawler.cpp:148-229 | every step keeps it that exactly the workers inside a critical section own its lock |
| `CrawlerTheorems.WakeUpsKept` | libspider/Crawler.cpp:215-227 | every step keeps it that when someone sleeps and the queue is not empty, someone is between a push and its broadcast |
| `CrawlerTheorems.FitsKept` | libspider/Crawler.cpp:67-146 | every step keeps every entry within depth 0 to 4, and what was pushed is what was popped and what is queued, in order |
| `CrawlerTheorems.Progress` | libspider/Crawler.cpp:462-474 | some worker can take a step unless all sleep on an empty queue |
| `CrawlerTheorems.PotentialFalls` | libspider/Crawler.cpp:142-143 | fetches so far plus what queued and in-flight entries can still lead to never grows |
| `CrawlerTheorems.RunKeeps` | libspider/Crawler.cpp:440-455 | all invariants hold after every run from the start, however the workers are interleaved |
| `CrawlerTheorems.NoDeadlock` | libspider/Crawler.cpp:67-229 | in every reachable state a worker can step, or all sleep and every pushed entry was taken |
| `CrawlerTheorems.BoundedCrawl` | libspider/Crawler.cpp:67-146 | every run fetches at most 1+k+k²+k³+k⁴ pages when a page has at most k links |
| `CrawlerVisits.VisitsFinished` | libspider/Crawler.cpp:67-229 | in every run, for every entry that a worker took but the one in hand: it was found in a list and dropped, or it was missing from all three, got a number, was fetched and saved in the list for the answer; a received page of depth up to 3 had each link, in order, found in a list or put into the queue one level deeper, and then the sleepers were woken |
| `CrawlerVisits.BroadcastFollowed` | libspider/Crawler.cpp:160-227 | whoever is about to wake the sleepers has followed all links of a received page of depth up to 3 |
| `CrawlerVisits.TakenVisited` | libspider/Crawler.cpp:67-76 | every entry that was taken is one of some worker's visits |
| `CrawlerVisits.LinksAdded` | libspider/Crawler.cpp:204-216 | each link of a followed page that no list has stands among the entries put into the queue |
| `CrawlerVisits.CrawlComplete` | libspider/Crawler.cpp:67-229 | in every reachable state a worker can step, or every entry that was ever put in, the first one included, has been taken and dealt with as VisitsFinished says |
| `SaveNames.WriteDigits` | libspider/Crawler.cpp:88-95 | the digits of the number stand at the end of the buffer, which they fit |
| `SaveNames.MakeName` | libspider/Crawler.cpp:88-103 | the name is f, the number with at least nine digits, and .html |
| `SaveNames.NameTellsNumber` | libspider/Crawler.cpp:88-103 | equal names come from equal numbers |
| `SaveNames.NameForm` | libspider/Crawler.cpp:88-103 | the name is `f`, the decimal digits of the number filled up to nine, and `.html` |
| `SaveNames.NamesAgree` | libspider/Crawler.cpp:556-563 | in every run, two pages get the same name if and only if their numbers agree modulo 2^32 |
| `PathNormalizer.WriteNext` | libhtmlparser/utils.cc:380-452 | what one character writes, by state; the write position stays behind the read position |
| `PathNormalizer.PopSegment` | libhtmlparser/utils.cc:422-428 | the search backwards cuts off exactly the last segment, if there is one |
| `PathNormalizer.StepBack` | libhtmlparser/utils.cc:420-429 | what going up one segment means for the text written so far |
| `PathNormalizer.Scan` | libhtmlparser/utils.cc:376-453 | the four-state scanner leaves what the machine over segments makes of the path, never writing ahead of its reading |
| `PathNormalizer.PrefixStays` | libhtmlparser/utils.cc:368-377 | what stands in front of the first `//` or `/.` needs no rewriting |
| `PathNormalizer.NormalizeSlashs` | libhtmlparser/utils.cc:347-468 | for every URL: the path is normalised by segments, query and fragment are kept |
| `PathNormalizer.NormalizedTwice` | libhtmlparser/utils.cc:347-468 | normalising again changes nothing |
| `PathNormalizer.LastDotsDropped` | libhtmlparser/utils.cc:419-438 | a final `..` is dropped and takes no segment with it |
| `DotSegments.BothPaths` | libhtmlparser/utils.cc:347-468 | what the code and section 5.2.4 of RFC 3986 make of every absolute path, from the list of its segments |
| `DotSegments.FrontStays` | libhtmlparser/utils.cc:368-377 | what stands in front of the first slash stays as it is |
| `DotSegments.TailStays` | libhtmlparser/utils.cc:347-366 | query and fragment stay as they are |
| `DotSegments.AgreesAlways` | libhtmlparser/utils.cc:347-468 | for every absolute path, the result is that of section 5.2.4 of RFC 3986 if and only if both are left with the same segments, and unless the path ends in `..` if and only if both count the same number |
| `DotSegments.EmptyLeftDiffers` | libhtmlparser/utils.cc:347-468 | whenever section 5.2.4 is left with an empty segment, the results differ |
| `DotSegments.AgreesExactly` | libhtmlparser/utils.cc:347-468 | for absolute paths without an empty segment, they are the same if and only if the last segment is not `..` or no segment is left in front of it |
| `DotSegments.LastDotsDiffer` | libhtmlparser/utils.cc:419-438 | `/a/b/..` becomes `/a/b/`, and `/a/` by section 5.2.4 |
| `DotSegments.EmptySegmentDiffers` | libhtmlparser/utils.cc:380-452 | `/a//b` becomes `/a/b`, and stays as it is by section 5.2.4 |
| `Bytes.CountAdds` | libspider/MD5.cpp:127-131 | the two words with their carry count bits modulo 2^64 |
| `Md5s.Context.CountUp` | libspider/MD5.cpp:127-131 | the counters hold the new length in bits modulo 2^64 |
| `Md5s.Context.TransformAll` | libspider/MD5.cpp:142-143 | the loop takes in all whole blocks |
| `Md5s.Context.Update` | libspider/MD5.cpp:119-153 | state and buffer stand for the message with the input behind it, wherever the block boundaries fall |
| `Md5s.PaddingIs` | libspider/MD5.cpp:167-173 | padLen bytes of PADDING and the eight length bytes are the padding of sections 3.1 and 3.2 of RFC 1321 |
| `Md5s.Context.Pad` | libspider/MD5.cpp:164-173 | the two last updates append exactly that padding |
| `Md5s.Context.Final` | libspider/MD5.cpp:159-180 | the digest is that of the message taken in; the context is zeroed |
| `Md5s.Encode` | libspider/MD5.cpp:274-285 | the bytes of all words, low byte first |
| `Md5s.Decode` | libspider/MD5.cpp:290-297 | the sixteen words of a block, low byte first |
| `Md5s.DecodeEncode` | libspider/MD5.cpp:274-297 | decoding undoes encoding |
| `Md5s.DigestOf` | libspider/MD5.cpp:102-180 | the digest is that of the concatenation, for every way of cutting the message into calls |
| `Shas.Context.Expand` | libspider/Sha.cpp:101-103 | the eighty words of the schedule |
| `Shas.Context.HashBlock` | libspider/Sha.cpp:96-140 | H is the compression of H and the block |
| `Shas.FourBytes` | libspider/Sha.cpp:36-37 | four bytes shifted in are a big-endian word, whatever the word held before |
| `Shas.Context.UpdateByte` | libspider/Sha.cpp:36-43 | H, W, lenW and the sizes stand for the message with this byte behind it |
| `Shas.Context.Update` | libspider/Sha.cpp:29-45 | the same for a run of bytes |
| `Shas.Context.PadZeros` | libspider/Sha.cpp:66-67 | the loop ends from every lenW, after the zeroes that reach 56 |
| `Shas.Context.Final` | libspider/Sha.cpp:48-81 | the hash is that of the message taken in; the context can be used again |
| `Shas.BytesMakeWord` | libspider/Sha.cpp:72-75 | the bytes given out for a word of H determine it |
| `Shas.ShaBlock` | libspider/Sha.cpp:84-91 | the hash is the fold over the message padded as section 5.1.1 of FIPS 180-4 says |
| `HashFacts.DigestOfAbc` | libspider/Sha.cpp:84-140 | the digest of `abc` is a9993e36 4706816a ba3e2571 7850c26c 9cd0d89d |
| `HashFacts.SelectBits` | libspider/Sha.cpp:113 | the function of the first twenty rounds takes c where b has a 1 and d elsewhere |
| `HashFacts.ParityBits` | libspider/Sha.cpp:119 | that of the next twenty is the sum of the bits modulo 2 |
| `HashFacts.MajorityBits` | libspider/Sha.cpp:125 | that of rounds 40 to 59 is what at least two of the three have |
| `HashFacts.RotateBits` | libspider/Sha.cpp:94 | the rotations move bit i to i + n modulo 32 |
| `HashFacts.ConstantRoots` | libspider/Sha.cpp:111-133 | the constants are the integer parts of 2^30 times the square roots of 2, 3, 5 and 10 |
| `HashFacts.InitWords` | libspider/MD5.cpp:102-112 | the words that MD5 and SHA begin with are the bytes 01 23 ... ef fe ... 10, low byte first, and SHA adds f0 e1 d2 c3 |
| `Shas.DigestOf` | libspider/Sha.cpp:29-81 | the hash is that of the concatenation, for every chunking |
| `Uris.PortOf` | libhtmlparser/Uri.cc:52-64 | the port of the first scheme in the table with this name, ignoring case, or 0 |
| `Uris.FindScheme` | libhtmlparser/Uri.cc:178-188 | there is a scheme if and only if the first delimiter is a colon and two slashes follow |
| `Uris.Uri.DealWithPath` | libhtmlparser/Uri.cc:137-176 | path, query and fragment as they are cut by the first `?` and `#` |
| `Uris.Uri.DealWithHost` | libhtmlparser/Uri.cc:213-239 | host and port by the first colon; a port that is no number is refused |
| `Uris.Uri.DealWithHostinfo` | libhtmlparser/Uri.cc:208-253 | user and password in front of the last `@` |
| `Uris.Uri.Init` | libhtmlparser/Uri.cc:121-254 | the fields are those that the URL is read into, and the URL is refused exactly when reading fails |
| `Uris.Uri.Unparse` | libhtmlparser/Uri.cc:375-476 | the text appended piece by piece is that of the fields |
| `Uris.TailKept` | libhtmlparser/Uri.cc:402-473 | path, query and fragment are written as they were read |
| `Uris.PartsFound` | libhtmlparser/Uri.cc:178-200 | a URL put together from scheme, host part and rest is taken apart into them |
| `UriFields.FieldsFound` | libhtmlparser/Uri.cc:121-254 | a URL put together from scheme, user, password, host, port, path, query and fragment is read into exactly these fields and flags |
| `UriFields.PathFound` | libhtmlparser/Uri.cc:137-186 | so is a path with query and fragment when there is no scheme |
| `UriFields.FieldsWritten` | libhtmlparser/Uri.cc:375-476 | what is written of such a URL: no user, and the port only if it is there and not the one that the scheme implies |
| `UriFields.KnownPorts` | libhtmlparser/Uri.cc:27-64 | the ports of http, ftp, https and gopher, whatever the case |
| `Uris.RoundTrip` | libhtmlparser/Uri.cc:121-476 | what init accepts is written so that init finds the same scheme, host, path, query and fragment, and writing again changes nothing |
| `Uris.IdentityExactly` | libhtmlparser/Uri.cc:375-476 | unparse gives back the URL if and only if it has no userinfo, no empty port and no port that its scheme implies |
| `IniFiles.IniFile.ReadString` | libspider/IniFile.cpp:69-88 | the value of the key, unless it is missing or empty |
| `IniFiles.IniFile.WriteString` | libspider/IniFile.cpp:166-177 | this entry and no other changes |
| `IniFiles.IniFile.Erase` | libspider/IniFile.cpp:238-256 | this entry and no other is gone |
| `IniFiles.TakeValue` | libspider/IniFile.cpp:318-331 | the value has no blank at its edges and is not empty; of a text in which no comment may begin it is all but the blanks around it, and there is none exactly if the text is blank |
| `IniFiles.ParseLine` | libspider/IniFile.cpp:291-336 | what stands in front of the first NUL changes the section or at most one entry, never both; the heading of a section sets it, and `key=value` that stands adds exactly this entry |
| `IniFiles.ParseConfig` | libspider/IniFile.cpp:280-345 | for every text on which the loop ends it reads every complete line and drops an incomplete last one |
| `IniLoop.LoopEnds` | libspider/IniFile.cpp:285-289 | the loop sees the end of the file if and only if every line has fewer than 1024 characters, and then every complete line has been read |
| `IniFiles.IniFile.SaveConfig` | libspider/IniFile.cpp:347-394 | the file holds the entries in key order, each new section with its heading |
| `IniFiles.IniFile.LoadConfig` | libspider/IniFile.cpp:396-412 | the map is what the file says |
| `IniFiles.IniFile.Flush` | libspider/IniFile.cpp:225-236 | the map becomes what the file says, and stays what it was if and only if it is clean |
| `IniFiles.CleanSavesShort` | libspider/IniFile.cpp:347-394 | a clean map whose entries fit into the line buffer is written in lines that fit, so that flush ends |
| `IniTheorems.SectionFound` | libspider/IniFile.cpp:362-366 | the section and key put into a map key are found in it again when the section has no `*` |
| `IniTheorems.MapKeyTells` | libspider/IniFile.cpp:170-172 | equal map keys come from equal sections and keys, when the sections have no `*` |
| `IniTheorems.SectionsTogether` | libspider/IniFile.cpp:358-390 | in key order the entries of a section stand together, whatever its name |
| `IniTheorems.SavedIsRead` | libspider/IniFile.cpp:358-390 | after any number of entries, what is written reads back as those entries |
| `IniTheorems.SaveLoad` | libspider/IniFile.cpp:280-394 | loading what was saved gives the same map, for every clean map |
| `IniTheorems.EntryExactly` | libspider/IniFile.cpp:291-336 | a line `key=value` stores this key with this value if and only if there is a section, and key, value and line stand, which excludes a NUL |
| `IniTheorems.EntryRead` | libspider/IniFile.cpp:318-336 | an entry that stands is stored in place of an older one with its key, whatever the map held |
| `IniLaws.BlanksIgnored` | libspider/IniFile.cpp:266-336 | blanks around the key, the value and the line play no part |
| `IniLaws.SectionTaken` | libspider/IniFile.cpp:295-301 | the name of a section goes from behind the first `[` to the last `]`, or to the end if that stands in front |
| `IniLaws.LessIs` | libspider/IniFile.cpp:358 | the keys are written in the order of the first character in which they differ, the shorter first |
| `IniExact.SaveLoadExactly` | libspider/IniFile.cpp:280-394 | for every map, loading what was saved gives the same map if and only if it is clean |
| `IniExact.NulCut` | libspider/IniFile.cpp:287-291 | the map with the value `a`, NUL, `b` comes back with the value `a` |
| `IniTheorems.CommentCut` | libspider/IniFile.cpp:318-331 | with n blanks in front, m the first place where a comment may begin and c the place the searches settle on, the value is kept if and only if the cut at c - n falls behind its last character and not behind m + 1 |
| `IniTheorems.CommentCutShort` | libspider/IniFile.cpp:318-331 | the entry `k= ab #c`, whose value is not read as `ab` |
| `IniTheorems.CommentCutFlush` | libspider/IniFile.cpp:318-331 | without blanks in front the value is kept if and only if the searches settle on the first place |
| `IniTheorems.NoComment` | libspider/IniFile.cpp:318-331 | without a comment the value is kept |
| `IniTheorems.PickedIs` | libspider/IniFile.cpp:319-322 | which place the four searches settle on, told by what occurs where |
| `IniTheorems.MarksFound` | libspider/IniFile.cpp:319-322 | wherever a comment may begin there is a first such place, and the searches settle on one |
| `IniTheorems.CommentKept` | libspider/IniFile.cpp:319-325 | the value `ab #c`, TAB, `#d` is read as `ab #c` |
| `IniTheorems.FaultsMeet` | libspider/IniFile.cpp:319-325 | the same value with three blanks in front is read as `ab` |

## Left out

- `HtmlTrees.HtmlTree.Insert`: the overload for sibling iterators, which can stand at the end of a list, is not modelled.
- `HtmlTrees.HtmlTree.Reparent`: the target must not be head or feet, and must not lie below a moved sibling, where the code would close a cycle.
- `HtmlCopies.Replace`: within one tree, neither subtree may hold the other's root; there the code would read freed nodes or copy without end.
- `Md5s.Context.Update`: one call is shorter than 2^32 - 63 bytes, because the loop condition `i + 63 < inputLen` wraps above; the input does not overlap the context's buffer.
- `Md5s.DigestOf`: the 64 steps of MD5Transform are a parameter, any function of the state and the sixteen words; the digest is stated relative to it.
- `Shas.Context.UpdateByte`: `unsigned long` is taken to have 32 bits; with 64, a word of W keeps its old upper half, and `Shas.FourBytes` does not hold.
- `Uris.Uri.DealWithHost`: `long` is taken to have 64 bits, unlike `unsigned long` in the hashes; with 32, strtol stops at 2^31 - 1.
- `SaveNames.NamesAgree`: the `unsigned long` that takes a file number is taken to have 64 bits, unlike that in the hashes.
- `Slabs.Cache.AllocObj`: an allocation of memory does not fail, a slab holds at least two objects; objects are a slab and an index instead of addresses, and LIST_ENTRY is a field.
- `Slabs.Cache.NewSlab`: a malloc that fails, and the second try behind reclaimAll, are not modelled.
- `Uris.Uri.Init`: an exception is the answer false; the fields that are set before it is thrown are not described. Unparse has no flags.
- `IniFiles.ParseConfig`: lines are shorter than the buffer of 1024 characters; `IniLoop.LoopEnds` shows that the loop does not end on others. So are those that `IniFiles.IniFile.Flush` writes.
- `CrawlerTheorems.NoDeadlock`: the running flag stays true and URLs parse; pages, links and the answers of checkUrl are chosen by the environment.
- `tree`: sort, merge, equal, swap, move_ontop, move_before, range replace, insert_subtree, post-order iterators and `--` of fixed-depth iterators; `++` of the latter is the code of next_at_same_depth again.
- `Node`: attributes, their parsing, and entity decoding.
- `ParserSax`: offsets and lengths are unbounded numbers, character classes are those of the "C" locale, callbacks are recorded and delivered in order.
- `Cache`: reclaimAll over the chain of caches, and the destructor.
- `TCrawler`: the list files, sockets, HTTP, SSL, proxy and polling, logging and configuration.
- `IniFile`: the readers and writers of int, double and bool, and show_config.
- Base64, time formatting, thread wrappers, character sets, HTTP messages and bit sets.
