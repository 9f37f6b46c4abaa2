# A verified model of the XML/XPath engine, the device indexer and the auto-function ROI

This project models, in Dafny, the behaviour of the code that carries the most state and branching in this
repository, and proves what that code is for. `dafny verify dfyconfig.toml` checks all of it.

* **The XPath 1.0 engine** of `external/PugiXml/pugixml.cpp`. A document is a finite ordered tree numbered in
  document order (`Documents`); the links of the DOM (first child, next sibling, cyclic back link) are functions of
  that tree. Queries have a reference meaning as sets of nodes (`XPathMeaning.Denote`), the engine's own evaluation
  with its modes, order tags and shortcuts (`XPathEval.Eval`), and the optimizer's rewriting, once as a function on
  expressions (`XPathSyntax.Optimize`) and once on linked objects changed in place (`XPathAstNodes.Optimize`).
  The walks along each axis, a whole location step with its predicates, the document-order comparison, the quicksort, the tagged node array, the expression
  parser and `translate()` are modelled in the form the source has: loops over links, arrays and cursors.
* **DOM, allocator, parser and printer** of the same file: node links edited in place (`Dom`, `DomDocument`), the
  page allocator (`PageAllocator`), the transcoders (`Utf`, `InputConversion`, `OutputConversion`), the buffered writer
  (`BufferedWriters`), the parser on strings (`XmlParser`) and as it runs, terminating and decoding every string inside
  one buffer (`XmlInPlace`, `XmlSegments`, `XmlParseTree`), printing (`XmlPrint`) and printing by the document's links
  through the writer (`XmlOutput`), the round trip (`XmlTags`, `XmlMarkup`, `XmlTree`), and saving and loading whole
  documents (`XmlSave`). Whole runs of edits and of allocations are in `DomRuns` and `AllocatorRuns`.
* **The device-loss indexer** (`src/Indexer.cpp`): scans, publications, calls, registrations and removals as atomic
  steps in any order.
* **The auto-function region of interest** (`src/SoftwareProperties.cpp`,
  `src/SoftwarePropertiesExposureAuto.cpp`): property writes and format changes on a rectangle.

How the parts fit: `OptimizeQuery` (objects) is `Optimize` (expressions), which keeps the reference meaning
(`OptimizeKeepsMeaning`); evaluation refines that meaning (`EvalRefines`); so the results a caller sees do not change
(`OptimizeKeepsResults`). That meaning takes an attribute name to select its first carrier, as the engine does;
`XPathPlain` has the plain meaning, in which it selects all of them, and proves when the two agree. The walks, steps, node arrays and sort that evaluation is stated with are computed by the
imperative methods (`StepFill.Fill`, `StepRun.StepDo`, `RawNodeSet.SortDo`, `NodeSort.Sort`). The documents the queries
run on are those the DOM edits produce: `DocumentLinks` numbers any valid document in memory so that its links are the
model's. Saving and loading chains the walk, the writer, the transcoders and the parser in place
(`XmlSave.SaveThenLoad`): what comes back is what `PrintThenParse` says of the text alone.

What a reference and an implementation both use is pinned from outside, in the terms of the standards: conversions,
comparisons and predicates of XPath (`XPathLaws`, `StringValues`), axes and node tests (`StepLaws`), the expression
grammar (`ExprGrammar`), references, escapes, names, white space and errors of XML (`XmlReferences`, `XmlPrintLaws`,
`XmlParseLaws`, `XmlDoctype`), the bit layouts of the encodings (`UtfLaws`), and that the optimizer leaves nothing undone
(`XPathReduced`).

Where the code does not do what its comments or its design suggest, the model follows the code and says exactly when
the two agree:

* An attribute compares before itself in the document-order comparator (pugixml.cpp:7063-7115), so it is not
  irreflexive; on distinct nodes it is document order (`DocumentOrder.IsBefore`). The sort is right with it all the same,
  repeated elements included: what a comparator says of an element and itself does not matter (`NodeSort.Sort`).
* Stopping at the first attribute of a name is complete exactly when the element does not repeat the name
  (`XPathResults.AttributeShortcut`). The engine's meaning is the plain one on every query exactly when no element of
  the document repeats a name (`XPathPlain.PlainIff`); under that condition evaluation, early stopping and the optimizer
  are right against the plain meaning (`EvalRefinesPlain`, `EarlyStoppingPlain`, `OptimizeKeepsPlain`).
* Printing and parsing gives a forest back unchanged exactly when it is a document that can come back
  (`XmlTree.RoundTripIff`, for every forest without exception): an element and no text at the top level; elements, text
  and CDATA only; proper names and no NUL; no tab in an attribute value, no carriage return, no "]]>" in CDATA, no blank
  text and no two texts side by side. A document may hold text beside its root element (pugixml.cpp:3716-3723) and it is
  printed, but the parser drops it (`XmlTree.TopTextLost`). For every forest of printable nodes, comments, instructions,
  declarations and balanced document types included, `XmlTree.PrintThenParse` says what comes back.
* An unknown ROI preset index changes the mode before the function gives up (SoftwarePropertiesExposureAuto.cpp:261-321,
  whose comment says nothing is changed), so the mode can be a non-custom one with a rectangle outside the image
  (`AutoFunctionsRoi.UnknownPresetIllegal`); a request leaves a legal rectangle exactly when the index is known or the
  rectangle was legal already (`AutoFunctionsRoi.PresetLegalIff`). Inside the library no caller passes such an index:
  presets are looked up by name among the six entries (src/SoftwarePropertiesImpl.cpp:166-185), so only a direct call of
  `set_int` could.
* The buffered writer converts chunk by chunk, and a chunk can end inside a code point when the next text continues it:
  2047 letters and a lead byte fill the buffer, and any text that starts with a continuation byte is then converted on
  its own (`BufferedWriters.SplitText`). A write is right after every history of texts that start at a code point exactly
  when its own text starts at one (`BufferedWriters.RightIff`), valid UTF-8 or not; in the native encoding always.

## Model

| member | source | states |
|---|---|---|
| `XPathOptimizer.OptimizeKeepsMeaning` | external/PugiXml/pugixml.cpp:9895-9957 | for every document, context and parsed query, the rewritten query selects the same nodes or computes the same value |
| `XPathOptimizer.PosInvSound` | external/PugiXml/pugixml.cpp:9959-9988 | what is classified as position-independent means the same at every position and size |
| `XPathOptimizer.FuseStepSound` | external/PugiXml/pugixml.cpp:9922-9936 | descendant-or-self::node()/axis::t[p] selects what the one fused step selects, for position-independent p and all four axes |
| `XPathOptimizer.DropPositionSound` | external/PugiXml/pugixml.cpp:9901-9907 | [position()=e] keeps the same nodes as [e] for every numeric e |
| `XPathOptimizer.UseTableSound` | external/PugiXml/pugixml.cpp:9938-9948 | replacing translate() with literals by its table keeps the value |
| `XPathOptimizer.UseAttributeSound` | external/PugiXml/pugixml.cpp:9950-9956 | @a='v' and @a=$v have the value of the direct attribute lookup, in the meaning where a name selects its first carrier |
| `XPathOptimizer.OptimizeClassified` | external/PugiXml/pugixml.cpp:9909-9920 | after optimizing, every predicate's class is one evaluation may rely on |
| `XPathAst.PosInvAgrees` | external/PugiXml/pugixml.cpp:9959-9988 | the recursion over _left and the _right/_next list decides position independence of the expression it stands for |
| `XPathAst.OptimizeAgrees` | external/PugiXml/pugixml.cpp:9895-9957 | bottom-up rewriting of the linked shape is the rewriting of the expression, leftovers of replaced operands included |
| `XPathAstNodes.Optimize` | external/PugiXml/pugixml.cpp:9895-9957 | rewriting the objects in place leaves memory laid out as the rewritten tree, without sharing and using only its own nodes |
| `XPathAstNodes.OptimizeQuery` | external/PugiXml/pugixml.cpp:9895-9957 | a parsed query's objects stand, after the call, for the optimized expression |
| `XPathAstNodes.RewritePositionInPlace` | external/PugiXml/pugixml.cpp:9901-9907 | only _right is redirected, and exactly when the predicate compares position() with a number |
| `XPathAstNodes.ClassifyInPlace` | external/PugiXml/pugixml.cpp:9909-9920 | only _test changes, to the class the operand has |
| `XPathAstNodes.FuseInPlace` | external/PugiXml/pugixml.cpp:9922-9936 | only _axis and _left change, exactly for fusible steps |
| `XPathRefinement.EvalRefines` | external/PugiXml/pugixml.cpp:9114-9158 | in mode all, any or first, evaluation yields the whole set, a subset empty only when it is, or its least node; scalars are equal; for every document, in the engine's meaning, whose comparisons, conversions and predicates `XPathLaws` gives |
| `XPathPlain.PlainAgrees` | external/PugiXml/pugixml.cpp:9120-9128 | with unique attribute names the engine's meaning of every query is the plain one, in which a name selects every carrier |
| `XPathPlain.PlainIff` | external/PugiXml/pugixml.cpp:9120-9128 | the two meanings agree on every query if and only if no element repeats an attribute name |
| `XPathPlain.EvalRefinesPlain` | external/PugiXml/pugixml.cpp:9114-9158 | with unique attribute names evaluation in every mode answers the plain meaning |
| `XPathPlain.EarlyStoppingPlain` | external/PugiXml/pugixml.cpp:9120-9149 | with unique attribute names the all, any and first modes give the whole plain set, its emptiness and its least node |
| `XPathPlain.OptimizeKeepsPlain` | external/PugiXml/pugixml.cpp:9895-9957 | with unique attribute names optimizing keeps the plain meaning |
| `XPathResults.OptimizeKeepsResults` | external/PugiXml/pugixml.cpp:9895-9957 | boolean, number and string results of the optimized query are those of the query as written; node sets have the same nodes, the same single node and the same listing in document order |
| `XPathResults.ResultsHonest` | external/PugiXml/pugixml.cpp:9767-9893 | every node set produced is duplicate-free, and one tagged sorted or sorted_reverse strictly ascends or descends |
| `XPathResults.EarlyStoppingAgrees` | external/PugiXml/pugixml.cpp:9120-9149 | for every document the any mode has the emptiness and the first mode the first node of the all mode |
| `XPathResults.AttributeShortcut` | external/PugiXml/pugixml.cpp:9120-9128 | the once shortcut for attribute names is complete if and only if the name is not repeated |
| `XPathLaws.BooleanLaw` | external/PugiXml/pugixml.cpp:9210-9346 | boolean() of numbers, strings, node sets and booleans, by the operand's own value |
| `XPathLaws.NumberLaw` | external/PugiXml/pugixml.cpp:9348-9532 | number() likewise: one and zero, the string's number, the number of the first node's string-value |
| `XPathLaws.StringLaw` | external/PugiXml/pugixml.cpp:9534-9765 | string() likewise: true and false, the first node's string-value or nothing |
| `XPathLaws.FirstLaw` | external/PugiXml/pugixml.cpp:9767-9893 | a node set stands for its first node in document order |
| `XPathLaws.LogicLaws` | external/PugiXml/pugixml.cpp:9210-9346 | or, and, not(), boolean(), true() and false() by their truth tables; number() and string() convert their operand |
| `XPathLaws.RelationLaw` | external/PugiXml/pugixml.cpp:8539-8608 | <, <=, > and >= hold exactly if a number of the left operand and one of the right stand in that order, where a node set offers the numbers of its nodes' string-values |
| `XPathLaws.NumbersCompare` | external/PugiXml/pugixml.cpp:9226-9236 | the four operators between numbers are the order of the reals, with infinities at its ends and NaN nowhere |
| `XPathLaws.EqualLaw` | external/PugiXml/pugixml.cpp:8446-8532 | = and != compare as booleans, numbers or strings by the operands' types, and for node sets hold exactly if some choice of nodes is equal, or differs |
| `XPathLaws.ArithmeticLaws` | external/PugiXml/pugixml.cpp:9348-9532 | operands are taken as numbers in the order written; addition is real, with the rules for infinities and NaN |
| `XPathLaws.SetLaws` | external/PugiXml/pugixml.cpp:9767-9893 | unions join, count() counts each node once, / is the root, position() and last() are the context's |
| `XPathLaws.SumLaw` | external/PugiXml/pugixml.cpp:9348-9532 | sum() adds each node's number once, in any order, and is NaN if one is no number |
| `XPathLaws.StepLaw` | external/PugiXml/pugixml.cpp:9114-9158 | a step selects, from every node it starts at, what its predicates leave of what axis and test reach, each predicate numbering what the one before has left |
| `XPathLaws.FilterLaw` | external/PugiXml/pugixml.cpp:9787-9799 | a filter numbers the nodes in document order |
| `XPathLaws.PositionLaw` | external/PugiXml/pugixml.cpp:8662-8688 | [k] keeps the k-th node alone, [last()] the last |
| `XPathLaws.LibraryTypes` | external/PugiXml/pugixml.cpp:10084-10195 | which library functions give numbers and booleans, and that none gives a node set |
| `XPathLaws.LibraryLaw` | external/PugiXml/pugixml.cpp:9534-9765 | every library function is given its arguments converted to what it takes |
| `XPathLaws.TranslateLaw` | external/PugiXml/pugixml.cpp:7497-7517 | translate() maps each character by the first place it has in the second argument, or drops it |
| `StringValues.StringValueLaw` | external/PugiXml/pugixml.cpp:6908-6956 | the string-value of an element is the text of its descendants in document order, of other nodes and attributes their value |
| `StringValues.StringValueOf` | external/PugiXml/pugixml.cpp:6908-6956 | collecting the text along the links gives the string-value of every node and attribute |
| `XPathReduced.OptimizeReduced` | external/PugiXml/pugixml.cpp:9895-9957 | in an optimized query none of the rewrites applies any more, and every predicate has the best class its form allows |
| `XPathRefinement.ConstantTruths` | external/PugiXml/pugixml.cpp:8662-8688 | a constant predicate picks the one position, as trying it at every position would |
| `NodeSetFacts.FirstNodeLeast` | external/PugiXml/pugixml.cpp:7784-7803 | whatever the tag, first() is the least node in document order |
| `NodeSetFacts.GetOrderHonest` | external/PugiXml/pugixml.cpp:7745-7759 | the tag found by comparing neighbours is true of the whole array |
| `NodeSetFacts.SortDoLists` | external/PugiXml/pugixml.cpp:7761-7782 | sorting any truthfully tagged set lists exactly its nodes in document order |
| `NodeSetFacts.DeduplicateHonest` | external/PugiXml/pugixml.cpp:7889-7895 | removing duplicates keeps each node once and no other |
| `Axes.StepNodesOrdered` | external/PugiXml/pugixml.cpp:8829-9020 | the reference walk of an axis lists the selected nodes once, in document order or its reverse |
| `Axes.AxesPartition` | external/PugiXml/pugixml.cpp:8829-9020 | any two nodes stand in exactly one of the relations ancestor, descendant, following, preceding, self |
| `StepLaws.NodeTests` | external/PugiXml/pugixml.cpp:8754-8826 | on every axis text(), comment(), processing-instruction(), *, p:* and names keep exactly the nodes of that kind and name of the node() walk, in its order |
| `StepLaws.AttributeTests` | external/PugiXml/pugixml.cpp:8714-8752 | the attribute axis keeps the attributes so named, namespace declarations left out, as they stand |
| `StepLaws.AxisLaws` | external/PugiXml/pugixml.cpp:8829-9020 | every axis between tree nodes, from the parent links alone: inverses, closures and what remains |
| `StepLaws.AttributeAxisLaws` | external/PugiXml/pugixml.cpp:9022-9101 | the axes from an attribute, by those of its element |
| `StepFill.WalksPartition` | external/PugiXml/pugixml.cpp:8829-9020 | the five walks from any node together list every node of the document exactly once |
| `StepFill.Fill` | external/PugiXml/pugixml.cpp:9103-9112 | walking the links from any node or attribute, along any axis, collects exactly the reference walk, or its first node if stopped |
| `StepFill.FillFromNode` | external/PugiXml/pugixml.cpp:8829-9020 | the same for every axis from a tree node |
| `StepFill.FillFromAttribute` | external/PugiXml/pugixml.cpp:9022-9101 | the same for every axis from an attribute |
| `StepRun.FilterTail` | external/PugiXml/pugixml.cpp:8610-8660 | compacting the tail of the array while evaluating keeps the nodes that pass at their original position, in order, and touches nothing before it |
| `StepRun.KeepConstant` | external/PugiXml/pugixml.cpp:8662-8688 | a constant position keeps the one node it names, or none |
| `StepRun.ApplyPredicate` | external/PugiXml/pugixml.cpp:8690-8702 | each of the three filters leaves what the evaluation of the predicate says |
| `StepRun.ApplyPredicates` | external/PugiXml/pugixml.cpp:8704-8712 | a list of predicates filters the tail one after the other, only the last may stop early |
| `StepRun.StepDo` | external/PugiXml/pugixml.cpp:9114-9158 | the loop over all input nodes, with its tag changes and the final removal of duplicates, computes the step of the evaluation |
| `Walkers.WalkChildren` | external/PugiXml/pugixml.cpp:8844-8851 | the child loop collects the children that pass, or the first |
| `Walkers.WalkDescendants` | external/PugiXml/pugixml.cpp:8853-8883 | the down-and-climb loop visits the whole subtree in document order and nothing else |
| `Walkers.WalkFollowingSiblings` | external/PugiXml/pugixml.cpp:8885-8892 | the sibling loop collects the later siblings in order |
| `Walkers.WalkPrecedingSiblings` | external/PugiXml/pugixml.cpp:8894-8901 | walking the back links stops at the first child although they are cyclic |
| `Walkers.WalkFollowing` | external/PugiXml/pugixml.cpp:8903-8937 | the walk collects everything after the subtree, in document order |
| `Walkers.WalkPreceding` | external/PugiXml/pugixml.cpp:8939-8980 | the backward walk collects everything before the node except its ancestors, in reverse order |
| `Walkers.WalkAncestors` | external/PugiXml/pugixml.cpp:8982-9000 | the parent loop collects the ancestors in reverse document order |
| `Walkers.NodeIsAncestor` | external/PugiXml/pugixml.cpp:7025-7030 | climbing from a node meets p if and only if the node is p or lies in its subtree |
| `DocumentOrder.NodeIsBeforeSibling` | external/PugiXml/pugixml.cpp:6958-6980 | the two-sided sibling scan decides which sibling comes first |
| `DocumentOrder.NodeIsBefore` | external/PugiXml/pugixml.cpp:6982-7023 | for any two distinct nodes the comparison is that of their preorder positions |
| `DocumentOrder.IsBefore` | external/PugiXml/pugixml.cpp:7063-7115 | the comparator is document order on nodes and attributes, except that an attribute precedes itself |
| `NodeSort.Sort` | external/PugiXml/pugixml.cpp:6493-6521 | for every comparator that decides distinct elements as a strict total order does, whatever it says of equal ones, the range becomes its sorted permutation, the rest is untouched, and 2^depth is at most the length plus one |
| `NodeSort.Partition` | external/PugiXml/pugixml.cpp:6414-6465 | the range is permuted into bands not larger than, equal to and not smaller than the pivot, all accesses inside it |
| `NodeSort.InsertionSort` | external/PugiXml/pugixml.cpp:6382-6411 | the hole-moving loop sorts its range, with any such comparator |
| `NodeSort.Median` | external/PugiXml/pugixml.cpp:6474-6491 | choosing a pivot of three or nine only permutes the range and never leaves it |
| `NodeSort.UniqueInPlace` | external/PugiXml/pugixml.cpp:6354-6375 | what is kept is the array without equal neighbours |
| `SortSpec.SortUniqueOnce` | external/PugiXml/pugixml.cpp:6354-6521 | sort followed by unique keeps every element exactly once, in strict order |
| `SortSpec.SortedUnique` | external/PugiXml/pugixml.cpp:6493-6521 | there is only one sorted permutation, so the sort's result does not depend on its pivots |
| `RawNodeSets.RawNodeSet.PushBack` | external/PugiXml/pugixml.cpp:7843-7851 | the node is appended, growing the array keeps what it held |
| `RawNodeSets.RawNodeSet.Order` | external/PugiXml/pugixml.cpp:7745-7759 | the scan with the document-order comparator finds the tag of the array |
| `RawNodeSets.RawNodeSet.SortDo` | external/PugiXml/pugixml.cpp:7877-7880 | reversing or sorting in place with the document-order comparator gives the sorted node set and its tag |
| `RawNodeSets.RawNodeSet.RemoveDuplicates` | external/PugiXml/pugixml.cpp:7889-7895 | unsorted arrays are sorted by address first, tagged ones are compacted as they are |
| `RawNodeSets.RawNodeSet.First` | external/PugiXml/pugixml.cpp:7838-7841 | the first node in document order, by tag or by a search with the comparator |
| `ExprParser.ParseExact` | external/PugiXml/pugixml.cpp:10693-10810 | a stream parses to a tree and is used up if and only if the tree reads back as the stream, left subtrees bind at least as tightly, right ones strictly tighter, and unions join node sets |
| `ExprGrammar.ParsesGrammar` | external/PugiXml/pugixml.cpp:10789-10810 | a stream parses to a tree and is used up if and only if the tree is its derivation in the grammar of XPath 1.0 |
| `ExprGrammar.ParseQuery` | external/PugiXml/pugixml.cpp:10807-10810 | the cursor loops return the derivation tree of the whole query, or it has none |
| `ExprParser.StreamsParse` | external/PugiXml/pugixml.cpp:10759-10810 | the parser uses up a stream if and only if it is operands, signed or not, joined by operators, and every union sign stands between two node-set operands |
| `ExprParser.ParseExpressionRec` | external/PugiXml/pugixml.cpp:10759-10787 | the two nested cursor loops compute the climb |
| `ExprParser.RightIsRec` | external/PugiXml/pugixml.cpp:10769-10777 | the inner loop over tighter operators is one climb at the next precedence |
| `Translation.TableAgrees` | external/PugiXml/pugixml.cpp:7519-7551 | whenever a table is built, looking up every character in it is the direct translation, repeated and deleted characters included |
| `Translation.TranslateInPlace` | external/PugiXml/pugixml.cpp:7497-7517 | the in-place loop leaves the translation in the front of the buffer |
| `Translation.TranslateTableInPlace` | external/PugiXml/pugixml.cpp:7553-7581 | the table loop leaves the table translation in the front of the buffer |
| `XmlTree.PrintThenParse` | external/PugiXml/pugixml.cpp:2641-2867 | for every forest of printable nodes: text at the top level is dropped, the rest comes back normalised, and without an element parsing fails for want of one |
| `XmlTree.PrintThenLoad` | external/PugiXml/pugixml.cpp:1346-1371 | the same when the text is copied with a terminator behind it, where the last character is not set aside |
| `XmlTree.RoundTripIff` | external/PugiXml/pugixml.cpp:3440-3687 | any forest at all comes back unchanged if and only if it is a document with an element and no text at the top level, printable, and clean |
| `XmlTree.TopTextLost` | external/PugiXml/pugixml.cpp:2836-2857 | a clean, printable document with text beside its root element loses that text |
| `XmlTree.NormalIdentity` | external/PugiXml/pugixml.cpp:2815-2861 | normalising changes nothing exactly for clean trees: named elements, text and CDATA, no tabs in values, no carriage returns, no "]]>", no blank and no adjacent texts |
| `XmlMarkup.GroupRead` | external/PugiXml/pugixml.cpp:2393-2437 | a document type whose nested pieces balance is skipped up to its own bracket, whatever follows it and whether or not the bracket is the character set aside |
| `XmlMarkup.CdataRead` | external/PugiXml/pugixml.cpp:3378-3400 | a section printed in pieces because it holds "]]>" is read back as those pieces |
| `XmlMarkup.CommentDashes` | external/PugiXml/pugixml.cpp:3440-3463 | a printed comment has no "--" before its end and does not end in a dash |
| `XmlMarkup.PiNoClose` | external/PugiXml/pugixml.cpp:3465-3484 | a printed instruction has no "?>" before its end |
| `XmlParser.DocumentMade` | external/PugiXml/pugixml.cpp:2641-2867 | every tree the parser hands over consists of elements, text and CDATA with proper names and no NUL, has an element and no text at its top level |
| `XmlParseLaws.NameLaw` | external/PugiXml/pugixml.cpp:2658-2667 | an element parses under its name if and only if the name is made of name characters |
| `XmlParseLaws.AttributeLaw` | external/PugiXml/pugixml.cpp:2672-2717 | white space of any kind around an attribute and its equals sign, and either quote, make no difference |
| `XmlParseLaws.TagErrors` | external/PugiXml/pugixml.cpp:2656-2813 | what may not follow a '<', with its error |
| `XmlParseLaws.StartErrors` | external/PugiXml/pugixml.cpp:2745-2766 | what may not follow the name of an element |
| `XmlParseLaws.EndErrors` | external/PugiXml/pugixml.cpp:2767-2799 | an end tag that names another element, or holds anything before its bracket |
| `XmlParseLaws.OpenErrors` | external/PugiXml/pugixml.cpp:2863-2867 | an element left open at the end of the input |
| `XmlParseLaws.AttributeErrors` | external/PugiXml/pugixml.cpp:2676-2717 | an attribute without equals sign, quotes or closing quote, or touching the next name |
| `XmlParseLaws.CommentErrors` | external/PugiXml/pugixml.cpp:2439-2478 | comments without their second dash or their end |
| `XmlParseLaws.SectionErrors` | external/PugiXml/pugixml.cpp:2479-2515 | CDATA sections without their keyword or their end |
| `XmlParseLaws.OtherErrors` | external/PugiXml/pugixml.cpp:2548-2640 | instructions without a name or an end, and document types inside an element |
| `XmlParseLaws.StrayBracket` | external/PugiXml/pugixml.cpp:2906-2928 | a printed document followed by a lone opening bracket is refused, although the last character is set aside before parsing |
| `XmlDoctype.DoctypeLaw` | external/PugiXml/pugixml.cpp:2393-2437 | every document type made of plain text, quotes, instructions, comments, ignored sections and nested declarations is balanced |
| `XmlParseTree.Parse` | external/PugiXml/pugixml.cpp:2894-2953 | parsing a whole buffer in place, its last character set aside and input ending at the first NUL, gives the tree or the error of the string parser, read off the buffer as it is afterwards |
| `XmlParseTree.ParseTree` | external/PugiXml/pugixml.cpp:2641-2867 | the loop over one shared buffer computes the recursive parse, errors included; afterwards every name and value is a terminated segment that no later write has touched |
| `XmlParseTree.StartTag` | external/PugiXml/pugixml.cpp:2656-2766 | the name is terminated in place and the element opened, or closed at once |
| `XmlParseTree.ReadAttributes` | external/PugiXml/pugixml.cpp:2671-2744 | the attribute loop terminates names and decodes values in place, failing where the string parser fails |
| `XmlParseTree.EndTag` | external/PugiXml/pugixml.cpp:2767-2799 | the end tag is compared with the open element's name where it stands in the buffer, with the three different errors |
| `XmlParseTree.ReadMarkup` | external/PugiXml/pugixml.cpp:2800-2813 | instructions, declarations, comments and document types leave nothing behind, a CDATA section becomes a node |
| `XmlParseTree.StrconvCdata` | external/PugiXml/pugixml.cpp:2027-2053 | the section up to its first "]]>" is decoded in place and terminated |
| `XmlParseTree.SkipGroup` | external/PugiXml/pugixml.cpp:2393-2437 | the loop with its depth finds the bracket that ends a document type |
| `XmlParseTree.SkipIgnore` | external/PugiXml/pugixml.cpp:2362-2391 | nested ignore sections are skipped |
| `XmlParseTree.SkipPrimitive` | external/PugiXml/pugixml.cpp:2329-2360 | quotes, instructions and comments inside a document type are skipped |
| `XmlSegments.StackSame` | external/PugiXml/pugixml.cpp:1989-1997 | writes at or behind the cursor change no string of any node collected so far |
| `XmlOutput.NodeOutput` | external/PugiXml/pugixml.cpp:3600-3687 | printing any document by its first-child, next-sibling and parent links sends exactly the text of the tree it stands for to the buffered writer, faithfully if every string can be cut after ASCII characters |
| `XmlOutput.Continue` | external/PugiXml/pugixml.cpp:3655-3680 | leaving a node closes elements upwards until one has a next sibling, and loses nothing of what follows |
| `XmlOutput.OutputEscaped` | external/PugiXml/pugixml.cpp:3329-3368 | the loop over runs and special characters writes the escaped text |
| `XmlOutput.OutputCdata` | external/PugiXml/pugixml.cpp:3378-3400 | the loop writes the section in pieces that hold no "]]>" |
| `XmlOutput.OutputComment` | external/PugiXml/pugixml.cpp:3440-3463 | the loop writes the comment with a space after every dash that could end it |
| `XmlOutput.OutputPiValue` | external/PugiXml/pugixml.cpp:3465-3484 | the loop writes the value with a space inside every "?>" |
| `XmlOutput.OutputSimple` | external/PugiXml/pugixml.cpp:3538-3592 | every kind of node without children is written as its text |
| `XmlOutput.HasDeclaration` | external/PugiXml/pugixml.cpp:3689-3700 | the scan finds whether a declaration stands before the first element |
| `XmlSave.Save` | external/PugiXml/pugixml.cpp:6146-6170 | the bytes handed over are byte-order mark, declaration and document, converted to the encoding asked for |
| `XmlSave.DeclarationLaw` | external/PugiXml/pugixml.cpp:6162-6168 | a declaration is added exactly if none stands before the first element |
| `XmlSave.SaveLoad` | external/PugiXml/pugixml.cpp:6146-6170 | whatever is printed before it, a document saved and loaded comes back normalised, and unchanged if and only if it is a printable, clean document |
| `XmlSave.Load` | external/PugiXml/pugixml.cpp:4335-4364 | a buffer in any of the six encodings, copied or in place, parses as its UTF-8 text does |
| `XmlSave.SaveThenLoad` | external/PugiXml/pugixml.cpp:6125-6170 | walk, buffered writer, transcoders and parser in place together: in every encoding that can express the text, the document comes back normalised, and unchanged exactly when it is clean |
| `InputConversion.ConvertBuffer` | external/PugiXml/pugixml.cpp:1647-1678 | the parser is given exactly the UTF-8 of the input, for all six encodings on either kind of machine, terminated unless the caller's buffer is used |
| `InputConversion.ConvertLatin1` | external/PugiXml/pugixml.cpp:1612-1645 | copying the 7-bit prefix and converting the rest is converting everything |
| `InputConversion.ConvertedBack` | external/PugiXml/pugixml.cpp:1647-1678 | text written in an encoding that can express it is read back unchanged |
| `XmlText.ReadEscapedText` | external/PugiXml/pugixml.cpp:3329-3368 | reading escaped text up to the next tag gives the text with line ends normalised |
| `XmlText.ReadEscapedValue` | external/PugiXml/pugixml.cpp:3486-3501 | reading an escaped quoted value gives the value with tabs as spaces |
| `XmlReferences.EntityLaw` | external/PugiXml/pugixml.cpp:1911-1980 | the five entities read as their characters, in text and in values |
| `XmlReferences.CharacterLaw` | external/PugiXml/pugixml.cpp:1852-1909 | every spelling of a code point, decimal or hexadecimal, in either case and with zeros in front, reads as bytes that decode to it |
| `XmlReferences.AmpersandLaw` | external/PugiXml/pugixml.cpp:1846-1984 | an ampersand that starts no reference stands for itself and reading goes on right behind it |
| `XmlReferences.TextLaws` | external/PugiXml/pugixml.cpp:2057-2106 | every other character of text: a tag ends it, line ends become line feeds, the rest stay |
| `XmlReferences.ValueLaws` | external/PugiXml/pugixml.cpp:2182-2216 | every other character of a value: the quote ends it, white space becomes a space, the rest stay |
| `XmlPrintLaws.EscapeIdentity` | external/PugiXml/pugixml.cpp:3329-3368 | text is printed as it is if and only if all its characters are harmless |
| `XmlPrintLaws.EscapeHolds` | external/PugiXml/pugixml.cpp:3329-3368 | printed text holds harmless characters and ampersands only |
| `XmlPrintLaws.CommentIdentity` | external/PugiXml/pugixml.cpp:3440-3463 | a comment is printed as it is if and only if it has no double dash and no dash at its end |
| `XmlPrintLaws.CommentBack` | external/PugiXml/pugixml.cpp:3440-3463 | a comment can be read off the output if and only if it has no dash with a space behind it; only spaces after dashes are added |
| `XmlPrintLaws.PiIdentity` | external/PugiXml/pugixml.cpp:3465-3484 | an instruction's value is printed as it is if and only if it does not hold "?>" |
| `XmlPrintLaws.PiBack` | external/PugiXml/pugixml.cpp:3465-3484 | the value can be read off the output if and only if it does not hold "? >" |
| `XmlPrintLaws.SectionsJoined` | external/PugiXml/pugixml.cpp:3378-3400 | the pieces a CDATA section is cut into hold its text, in order |
| `XmlText.LinesIdentity` | external/PugiXml/pugixml.cpp:2057-2106 | line-end normalisation is the identity exactly on text without carriage returns |
| `XmlText.ReferenceShrinks` | external/PugiXml/pugixml.cpp:1846-1984 | a replaced reference is always shorter than what it replaces |
| `XmlInPlace.Push` | external/PugiXml/pugixml.cpp:1804-1829 | merging a further gap keeps the decoded text and the write position behind the read position |
| `XmlInPlace.Flush` | external/PugiXml/pugixml.cpp:1832-1843 | closing the gap leaves the decoded text contiguous |
| `XmlInPlace.Unescape` | external/PugiXml/pugixml.cpp:1846-1984 | a reference is replaced in place by the character `XmlReferences` gives it, or stepped over |
| `XmlInPlace.StrconvPcdata` | external/PugiXml/pugixml.cpp:2057-2106 | in-place decoding leaves exactly the text the reference reader finds, never writing past the read position |
| `XmlInPlace.StrconvAttribute` | external/PugiXml/pugixml.cpp:2182-2216 | the same for attribute values, and failure exactly without a closing quote |
| `XmlInPlace.DecodeEscaped` | external/PugiXml/pugixml.cpp:2057-2106 | decoding what the printer escaped leaves the text in the buffer |
| `Utf.PassesAgree` | external/PugiXml/pugixml.cpp:844-1032 | the counting pass and the writing pass agree on the length for UTF-8, UTF-16 and UTF-32 |
| `Utf.ConvertUtf16` | external/PugiXml/pugixml.cpp:1551-1574 | a UTF-16 buffer of either byte order becomes the UTF-8 of its code points, in exactly the memory counted |
| `Utf.ConvertUtf32` | external/PugiXml/pugixml.cpp:1576-1599 | the same for UTF-32 |
| `Utf.DecodeWords` | external/PugiXml/pugixml.cpp:1098-1140 | the cursor loop with its byte swap decodes the words, dropping unpaired surrogates |
| `Utf.Utf16RoundTrip` | external/PugiXml/pugixml.cpp:1098-1140 | well-formed UTF-16 survives the conversion to UTF-8 and back |
| `Utf.WritesDecode` | external/PugiXml/pugixml.cpp:1098-1165 | scalar code points written as UTF-16 or UTF-32 decode to themselves |
| `Utf.Write8Decodes` | external/PugiXml/pugixml.cpp:1036-1096 | any sequence of scalar code points written as UTF-8 decodes to itself |
| `UtfLaws.Utf8Bits` | external/PugiXml/pugixml.cpp:865-923 | UTF-8 output has the bit layout of RFC 3629 |
| `UtfLaws.OtherBits` | external/PugiXml/pugixml.cpp:925-1032 | UTF-16 output has the surrogates of RFC 2781, UTF-32 is the number, Latin-1 too or a question mark |
| `UtfLaws.ByteOrder` | external/PugiXml/pugixml.cpp:3065-3107 | the byte orders, by the value of the bytes |
| `UtfLaws.StraySurrogate` | external/PugiXml/pugixml.cpp:1098-1140 | a surrogate without its other half stands for nothing |
| `UtfLaws.StrayByte` | external/PugiXml/pugixml.cpp:1036-1096 | a byte that cannot be first or lacks a continuation byte stands for nothing, and reading goes on behind it |
| `Utf.DecodeBlock8` | external/PugiXml/pugixml.cpp:1036-1096 | the decoder with the four-byte ASCII path gives the plain decoding at every alignment, for every input |
| `OutputConversion.ConvertedJoin` | external/PugiXml/pugixml.cpp:3065-3107 | converting the two sides of a permitted cut is converting the whole, in every encoding |
| `OutputConversion.ScratchFits` | external/PugiXml/pugixml.cpp:3299-3322 | no conversion expands a byte to more than four, so the scratch buffer suffices |
| `OutputConversion.SplitIff` | external/PugiXml/pugixml.cpp:3065-3107 | in every encoding but the native one, converting the two sides of a cut apart is right if and only if no code point straddles it |
| `BufferedWriters.SplitText` | external/PugiXml/pugixml.cpp:3110-3327 | a run that goes wrong, for every text that starts with a continuation byte and every way to write it |
| `BufferedWriters.RightIff` | external/PugiXml/pugixml.cpp:3110-3327 | a write is right after every history of texts that start at a code point if and only if its own text starts at one |
| `BufferedWriters.OutputFaithful` | external/PugiXml/pugixml.cpp:3110-3327 | for texts that start at a code point the output is the conversion of their concatenation |
| `BufferedWriters.ApplyText` | external/PugiXml/pugixml.cpp:3151-3297 | whatever the text, each write appends exactly its bytes, none lost or reordered before conversion |
| `OutputConversion.GetValidLength` | external/PugiXml/pugixml.cpp:3049-3063 | the loop finds the last start of a code point within four bytes, or all of it |
| `OutputConversion.ConvertBufferOutput` | external/PugiXml/pugixml.cpp:3065-3107 | decoding, writing in machine order and swapping yields the target encoding on either kind of machine |
| `OutputConversion.WholeText` | external/PugiXml/pugixml.cpp:3065-3107 | whole UTF-8 text starts at a code point and comes out as its code points in all six encodings |
| `BufferedWriters.Run` | external/PugiXml/pugixml.cpp:3110-3327 | after any writes and the final flush the sink holds the conversions of the chunks; for texts that start at a code point exactly the conversion of their concatenation |
| `BufferedWriters.Writer.Flush` | external/PugiXml/pugixml.cpp:3126-3149 | everything accepted is sent, through a scratch buffer that is never overrun |
| `BufferedWriters.Writer.WriteDirect` | external/PugiXml/pugixml.cpp:3151-3188 | long strings go out in the chunks of the specification, the tail stays buffered |
| `BufferedWriters.Writer.WriteBuffer` | external/PugiXml/pugixml.cpp:3190-3203 | any bytes are appended to what was accepted, and the output stays faithful if they start at a code point |
| `BufferedWriters.Writer.WriteString` | external/PugiXml/pugixml.cpp:3205-3228 | filling the buffer and taking back a split code point appends any string, faithfully if it starts at a code point |
| `BufferedWriters.Writer.WriteFew` | external/PugiXml/pugixml.cpp:3230-3297 | up to six bytes are appended, flushing first if they do not fit, faithfully if they start at a code point |
| `Dom.AppendNode` | external/PugiXml/pugixml.cpp:631-650 | the links encode the child sequence with the node at the end |
| `Dom.PrependNode` | external/PugiXml/pugixml.cpp:652-668 | the links encode the sequence with the node in front |
| `Dom.InsertNodeAfter` | external/PugiXml/pugixml.cpp:670-685 | the links encode the sequence with the node after the given one |
| `Dom.InsertNodeBefore` | external/PugiXml/pugixml.cpp:687-702 | the links encode the sequence with the node before the given one |
| `Dom.RemoveNode` | external/PugiXml/pugixml.cpp:704-721 | the links encode the sequence without the node, whose own links are cleared |
| `DomTree.AttachForest` | external/PugiXml/pugixml.cpp:631-702 | attaching a detached tree anywhere outside itself keeps the forest acyclic, each node in one place |
| `DomTree.DetachForest` | external/PugiXml/pugixml.cpp:704-721 | detaching a node leaves two such forests side by side |
| `DomTree.MovedForest` | external/PugiXml/pugixml.cpp:5177-5231 | a permitted move keeps one acyclic tree of exactly the same nodes |
| `DomTree.MovedBelow` | external/PugiXml/pugixml.cpp:5177-5231 | the moved node takes its whole subtree along and no other ancestry changes |
| `DomTree.AllBelowTop` | external/PugiXml/pugixml.cpp:3711-3747 | every node of a document is reached from its root |
| `DomTree.SubtreeSplit` | external/PugiXml/pugixml.cpp:603-629 | a subtree is its node and, disjoint from it, the subtrees of its children |
| `DomDocument.Document.AllowMove` | external/PugiXml/pugixml.cpp:3716-3747 | a move is permitted if and only if the kinds fit, both are of one document, and the target is not inside the moved subtree |
| `DomDocument.AllowedIsHeld` | external/PugiXml/pugixml.cpp:3716-3723 | documents and elements hold children, a document is nobody's child, declarations and document types stand directly below the document |
| `DomDocument.Document.Relink` | external/PugiXml/pugixml.cpp:5177-5231 | remove and insert give the moved tree, all links faithful, no node lost or doubled |
| `DomDocument.Document.AppendMove` | external/PugiXml/pugixml.cpp:5177-5188 | moves to the end exactly when permitted, else changes nothing |
| `DomDocument.Document.PrependMove` | external/PugiXml/pugixml.cpp:5190-5201 | moves to the front exactly when permitted, else changes nothing |
| `DomDocument.Document.InsertMoveAfter` | external/PugiXml/pugixml.cpp:5203-5216 | moves behind the given child exactly when permitted, else changes nothing |
| `DomDocument.Document.InsertMoveBefore` | external/PugiXml/pugixml.cpp:5218-5231 | moves before the given child exactly when permitted, else changes nothing |
| `DomDocument.Document.AppendChild` | external/PugiXml/pugixml.cpp:5025-5037 | a new last child if the kinds fit, else nothing |
| `DomDocument.Document.PrependChild` | external/PugiXml/pugixml.cpp:5039-5051 | a new first child if the kinds fit, else nothing |
| `DomDocument.Document.InsertChildAfter` | external/PugiXml/pugixml.cpp:5068-5081 | a new child behind the given one if it is a child, else nothing |
| `DomDocument.Document.InsertChildBefore` | external/PugiXml/pugixml.cpp:5053-5066 | a new child before the given one if it is a child, else nothing |
| `DomDocument.Document.RemoveChild` | external/PugiXml/pugixml.cpp:5254-5262 | a child and its whole subtree leave the document, everything else stays linked |
| `DomDocument.Document.DestroyNode` | external/PugiXml/pugixml.cpp:603-629 | the recursion frees every node of the subtree exactly once |
| `DomRuns.RunEdits` | external/PugiXml/pugixml.cpp:5025-5262 | after any sequence of edits the document is one faithfully linked tree of exactly the nodes made and not freed, none made or freed twice, and every node stands where its kind may stand |
| `DomNumbering.NumberedValid` | external/PugiXml/pugixml.cpp:518-539 | listing the nodes of any DOM tree in document order makes it a document of the query engine's model |
| `DomNumbering.Interval` | external/PugiXml/pugixml.cpp:6982-7023 | wherever a node stands in the document-order listing, its subtree's listing follows |
| `DomLinks.DocumentLinks` | external/PugiXml/pugixml.cpp:518-539 | in every reachable document, the parent, first-child, next-sibling and cyclic back links in memory are those the axis walks follow |
| `PageAllocator.SoundBump` | external/PugiXml/pugixml.cpp:353-364 | a block taken from the free end overlaps no live block and is accounted for |
| `PageAllocator.SoundFree` | external/PugiXml/pugixml.cpp:366-399 | busy minus freed stays the live bytes, and is zero exactly when no block is left |
| `PageAllocator.SoundDisjoint` | external/PugiXml/pugixml.cpp:353-399 | no byte belongs to two live blocks, and each lies inside its page |
| `PageAllocator.DecodeEncoded` | external/PugiXml/pugixml.cpp:401-452 | a string header leads back to its page and its allocated size |
| `PageAllocator.DecodeNeedsPage` | external/PugiXml/pugixml.cpp:428-452 | the 16-bit size alone suffices exactly below 65536 units; beyond, the page's busy size must be the block's |
| `PageAllocator.Allocator.AllocateMemory` | external/PugiXml/pugixml.cpp:353-364 | a live block in the top page if it fits, else in a new page at its place in the list; no other block changes |
| `PageAllocator.Allocator.AllocateMemoryOob` | external/PugiXml/pugixml.cpp:458-495 | small blocks open a new top page, large ones a page of their own before the top |
| `PageAllocator.Allocator.DeallocateMemory` | external/PugiXml/pugixml.cpp:366-399 | the block goes; a page other than the top is released exactly when it was the last one |
| `PageAllocator.Allocator.AllocateString` | external/PugiXml/pugixml.cpp:401-433 | a live block with room for the string, its header written |
| `PageAllocator.Allocator.DeallocateString` | external/PugiXml/pugixml.cpp:435-452 | frees exactly the block the string was given, found from its header |
| `AllocatorRuns.RunRequests` | external/PugiXml/pugixml.cpp:353-495 | after any sequence of allocations and frees every page account holds and the live blocks are exactly those handed out and not given back |
| `DeviceIndexer.CalledAsListed` | src/Indexer.cpp:62-128 | over every interleaving, the calls made and due to a registration about a lost serial it listens to while registered are as many as the old list named the serial, and none otherwise |
| `DeviceIndexer.CalledExactlyOnce` | src/Indexer.cpp:62-128 | hence exactly one call per published loss when the old list names no serial twice, and never one otherwise |
| `DeviceIndexer.StayingCalledOnce` | src/Indexer.cpp:62-128 | a registration that stays in the table is called or due, per present-to-absent transition of a matching serial, once for each time the old list named it, over every interleaving |
| `DeviceIndexer.RunKeeps` | src/Indexer.cpp:62-128 | in every reachable state the calls made and due are those the published lists and snapshots account for |
| `DeviceIndexer.ListIsScan` | src/Indexer.cpp:166-177 | the list handed out is the latest completed scan |
| `DeviceIndexer.StaysRegistered` | src/Indexer.cpp:179-225 | only a matching removal takes a registration out |
| `DeviceIndexer.RemovalLaw` | src/Indexer.cpp:193-225 | a removal takes out the earliest match, or nothing |
| `DeviceIndexer.Indexer.PublishFirst` | src/Indexer.cpp:65-70 | the first list is published: the step of the state machine |
| `DeviceIndexer.Indexer.Publish` | src/Indexer.cpp:82-112 | the lost devices are those of the old list missing in the new, which is published with the table's snapshot: the step of the state machine that ends a scan |
| `DeviceIndexer.Indexer.Turn` | src/Indexer.cpp:72-127 | an undisturbed turn of the worker is the steps of a scan, its publication and all its calls |
| `DeviceIndexer.Indexer.GetDeviceList` | src/Indexer.cpp:166-177 | the list of the current state |
| `DeviceIndexer.Indexer.RegisterDeviceLost` | src/Indexer.cpp:179-191 | the registration step of the state machine |
| `DeviceIndexer.Indexer.RemoveDeviceLost` | src/Indexer.cpp:193-225 | the first matching registration goes, the others keep their order: the removal steps of the state machine |
| `DeviceIndexer.Notify` | src/Indexer.cpp:113-125 | the nested loops make the calls of a round in order |
| `AutoFunctionsRoi.RunLegal` | src/SoftwareProperties.cpp:353-402 | after any writes and format changes, a known mode other than custom has its rectangle inside the image, on multiples of 4, and it is the part of the present image the mode names; with known presets the mode is always known |
| `AutoFunctionsRoi.ApplyKeeps` | src/SoftwareProperties.cpp:353-402 | from any state every single write and format change keeps that |
| `AutoFunctionsRoi.PresetLegal` | src/SoftwarePropertiesExposureAuto.cpp:261-321 | every preset but custom makes a legal rectangle from any rectangle |
| `AutoFunctionsRoi.PresetShaped` | src/SoftwarePropertiesExposureAuto.cpp:261-321 | each preset makes the part of the image it names: all of it, the upper or lower half, or a centred half or quarter of each side, up to the step |
| `AutoFunctionsRoi.HalvesMeet` | src/SoftwarePropertiesExposureAuto.cpp:295-310 | the two halves meet in one row without overlap and cover the image but for less than two steps |
| `AutoFunctionsRoi.CustomRounds` | src/SoftwarePropertiesExposureAuto.cpp:271-321 | custom moves each number towards zero onto the grid, by less than a step |
| `AutoFunctionsRoi.EdgeCuts` | src/SoftwareProperties.cpp:362-402 | moving an edge cuts the size exactly so far that the rectangle stays inside a known image, and touches nothing else |
| `AutoFunctionsRoi.FormatAsksAgain` | src/SoftwareProperties.cpp:800-825 | a new format is a new request for the mode that is set; a custom rectangle stays |
| `AutoFunctionsRoi.PresetLegalIff` | src/SoftwarePropertiesExposureAuto.cpp:261-321 | a request leaves a legal rectangle if and only if the index is known or it was legal |
| `AutoFunctionsRoi.UnknownPresetIllegal` | src/SoftwarePropertiesExposureAuto.cpp:261-321 | a run with a direct request for an unknown index that ends in a non-custom mode with an illegal rectangle |
| `AutoFunctionsRoi.SoftwareProperties.Write` | src/SoftwareProperties.cpp:353-402 | the setters and the format change keep the rectangle of a known non-custom mode legal and the part of the image it names, and a rectangle write always leaves custom mode |
| `AutoFunctionsRoi.SoftwareProperties.SetAutoFunctionsPresetMode` | src/SoftwarePropertiesExposureAuto.cpp:261-321 | the rectangle is legal afterwards exactly when the index is known or it was legal before, and for a known index it is the part of the image the preset names |

## Left out

- File, stream and wide-path loading, guessing the encoding of a buffer, `malloc` and `free`, `setjmp` error exits and out-of-memory branches: allocation always succeeds here.
- `PUGIXML_WCHAR_MODE`: not enabled by `external/PugiXml/pugiconfig.hpp`.
- Number formatting and parsing: conversions between numbers and strings, arithmetic and the string library of XPath are parameters of the environment, used but not defined. Numbers are exact reals with infinities and NaN; that `sum()` does not depend on the order of a node set holds for exact addition, not for rounded addition.
- `document_buffer_order` (pugixml.cpp:7032-7061): depends on raw addresses; the comparison by links is modelled instead. `remove_duplicates` sorts by an arbitrary strict total order in place of addresses.
- Evaluation (`eval_boolean`, `eval_number`, `eval_string`, `eval_node_set`) is a function on expressions; its use of the two stack allocators is not modelled.
- The query lexer and the parsing of location paths: `ExprParser` starts from operands and operators, with path expressions as operands.
- Parse flags other than the default: comments, instructions, declarations and document types are skipped, as the default does. Positions of errors in the buffer.
- Attribute list edits (pugixml.cpp:725-845): the same cyclic encoding as for nodes, without further claims.
- Copying subtrees (`node_copy_tree`) and `append_buffer`.
- Indentation and the other output flags: raw output only.
- Decoding of malformed UTF-8 input is modelled as the decoder does it, but no round trip is claimed for it.
- `Indexer::sort_device_list`: its comparator is not irreflexive (src/Indexer.cpp:150-160); a scan is any list, and no order is claimed.
- That no callback runs after a removal: callbacks run on a snapshot taken before unlocking (src/Indexer.cpp:111-124), so the code does not promise it.
- The destructor's stop of the worker thread, and timing: waiting is left to the order of events.
- Bounds of the ROI in custom mode: the width and height setters do not clamp (src/SoftwareProperties.cpp:391-402). The focus ROI, and overflow of the 32-bit integers, are not modelled.
- `auto_alg`, `img`, the GStreamer, Aravis, libusb and V4L2 layers, `VideoFormat` and the accessors around them.
- User variables: a node-set variable is taken to be duplicate-free with a true order tag (`XPathMeaning.ValidEnv`); the public `xpath_node_set` constructor does not enforce that.
- XmlParseTree.ParseTree: keeps the open elements and their children on a stack; linking the nodes as they are made (`Dom.AppendNode`) is proved apart from it.
- DomDocument.Document.DestroyNode: frees the nodes; the strings and attributes they own are not part of the model.
- PageAllocator.Allocator.DeallocateString: is handed the page, which the source finds by subtracting the decoded offset from the header's address; that the offset leads back to the page's start is proved.
- XmlOutput.NodeOutput: prints raw; a missing value and an empty one are the same, and a document node is never a child, which insertion does not permit.
- XmlSave.SaveThenLoad: in an encoding other than the native one the printed text must be whole UTF-8 that the encoding can express; guessing an encoding is not modelled.
- DomDocument.Document.Link: the four link edits are dispatched by a value naming the place, where the source calls one of four functions.
- BufferedWriters.Writer.WriteFew: the six overloads are one method over a sequence of one to six bytes.
