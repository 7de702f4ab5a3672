# Proofs about the JSON engine and the Safe Runtime

This project models six parts of `bin/json.c` and proves what they promise.

* The red/black tree (`RbTree.dfy`, `RbRuns.dfy`): nodes with parent pointers, two sentinels, a
  cached minimum, optional duplicates, and a comparator with a context. A ghost sequence holds
  the nodes in order, and every node knows its position and the interval of its subtree. All
  structural rules are local to a node and its neighbours, which makes rotations local.
* The JSON document (`JsonForest.dfy`, `JsonArray.dfy`, `JsonQuery.dfy`, `JsonPaths.dfy`,
  `JsonKeys.dfy`, `JsonBlend.dfy`, `JsonMerge.dfy`, `JsonMoves.dfy`, `JsonClone.dfy`,
  `JsonBlendQuery.dfy`): one pre-order array whose
  nodes store the end of their subtree. Every edit of the array is related to the edit of the
  forest that it stands for. Blends are modelled with the capacity of the array and with an
  allocator that may move it.
* The parser and the printer (`JsonParser.dfy`, `JsonParse.dfy`, `JsonPrinter.dfy`,
  `JsonRoundTrip.dfy`, `JsonStrict.dfy`, `JsonTokens.dfy`, `JsonText.dfy`, `JsonBrackets.dfy`): a loop without a stack over a text that it overwrites,
  first as a function of its state, then as the loop itself, and the round trip through the
  printer, in lenient and in strict mode. Strings and numbers are measured against RFC 8259.
* The hash table (`Hash.dfy`): chains and the free list in one growable array, rehashed in place.
* The event queue (`Events.dfy`): a time-ordered linked list, and runs of its operations.
* The quicksort (`Sort.dfy`) and the growable buffer (`Buf.dfy`).

`Order.dfy`, `Powers.dfy` and `Sets.dfy` hold what several of these share.

Some things turned out to be different from what one would expect of the code. Each is stated
as a lemma or a contract, with the exact condition:

* A hash table that was only asked to ignore case forgets names when it is rehashed
  (`HashTable.Hash.AddIsUpdateIff`, `HashTable.CaselessForgets`).
* `rRemoveName` reports success for every name as long as the table has no buckets (the contract
  of `HashTable.Hash.RemoveName`).
* Where a blend overwrites a tree by a larger array, it goes on to use a pointer into the block of
  nodes that the reallocation may have moved: the type is lost, and the elements end up in
  something that is not an array (`JsonMoves.BlendIsMergeIff`). In C this is a write to freed
  memory; the model takes it to leave the document alone.
* So the clone of a document whose root is an array with 64 or more nodes below it may be an
  object; and that of an empty array always is one (`JsonClone.CloneShowsIff`,
  `JsonClone.BigArrayClone`, `JsonClone.EmptyArrayClone`).
* A clone is hardly ever equal to its source node by node: names and values that are missing below
  arrays, such as the names of elements, become empty strings (`JsonClone.CloneEqualIff`). The
  printed text does not show it (`JsonClone.ClonePrintsIff`).
* Strict parsing refuses empty containers and arrays of strings, until the first nested container is
  closed; from there on it is not strict any more (`JsonStrict.StrictRoundTripIff`).
* A number with a plus sign in its exponent, such as `1e+5`, is refused in both modes
  (`JsonTokens.ListedNumber`).
* The last character of a bare word is not looked at, unless a blank follows it: `[trux]` holds a
  primitive, `[trux ]` a string (`JsonTokens.ListedWord`).

Foreign code enters as parameters: the comparators and the free callback, the clock (`now`,
`ticks`), whether a fiber could be allocated, and from which capacities a reallocation moves the
block. Strings are values; C strings hold no NUL.

## Model

| member | source | states |
|---|---|---|
| RedBlack.RbTree.constructor | bin/json.c:11765-11791 | An allocated tree satisfies the whole invariant and stores nothing |
| RedBlack.RbTree.Insert | bin/json.c:12003-12086 | From any valid tree to a valid tree (order, links, sentinels, `min`, no red-red edge, equal black heights). With duplicates the in-order items gain the new one just behind every item not greater than it; without, an equal item is replaced in place and given to the free callback, and no node is added |
| RedBlack.RbTree.FindPlace | bin/json.c:12014-12040 | The binary search ends at an equal node, or at the one empty slot whose position lies behind all items not greater and in front of all greater ones |
| RedBlack.RbTree.InsertFixup | bin/json.c:12088-12140 | Ends within log2(n+1) + 1 rounds, because a recolouring round climbs two levels, one of black height, and a rotation ends the loop; then no red-red edge is left and black heights are equal everywhere, and the order of the nodes is untouched |
| RedBlack.RbTree.RotateLeft | bin/json.c:11945-11970 | Relinks exactly the node, its right child and that child's left subtree; the in-order sequence and all parent links stay consistent |
| RedBlack.RbTree.RotateRight | bin/json.c:11972-11998 | The mirror image |
| RedBlack.RbTree.Remove | bin/json.c:12147-12232 | From any valid tree to a valid tree whose in-order items are the old ones without exactly the removed position. With two children the successor's node goes and the node keeps its place with the successor's item. The item goes to the callback or to the caller, never both |
| RedBlack.RbTree.ChooseTarget | bin/json.c:12157-12175 | The target has at most one child; it is the node, or its in-order successor whose item the node takes over; `min` is right for the time after the removal |
| RedBlack.RbTree.Unlink | bin/json.c:12177-12231 | Rebalancing runs while the target is still linked; afterwards exactly the target's position is gone from the order, and every colour rule holds again |
| RedBlack.RbTree.DeleteFixup | bin/json.c:12234-12316 | Ends within log2(n+1) + 1 rounds, with the debt paid: every node but the one about to go is balanced and no red node has a red child, although that node is still linked |
| RedBlack.RbTree.Next | bin/json.c:11890-11913 | The node at the next position of the order, NULL behind the last one |
| RedBlack.RbTree.Lookup | bin/json.c:11818-11834 | For a comparator whose sign is monotone along the items: a match if there is one, in at most 2 log2(n+1) comparisons |
| RedBlack.RbTree.LookupFirst | bin/json.c:11839-11862 | For any such comparator and context: the leftmost match, NULL exactly if there is none |
| RedBlack.RbTree.LookupNext | bin/json.c:11867-11877 | The next node exactly if it matches too |
| RedBlack.RbTree.MatchingRun | bin/json.c:11839-11877 | The matches of a monotone comparison are one contiguous run of positions |
| RedBlack.RbTree.IterateIndex | include/db.h:94-95 | The loop of ITERATE_INDEX visits exactly the run of matches, once each, in order |
| RedBlack.RbTree.IterateTree | include/db.h:81 | From rbFirst on, rbNext visits the whole in-order sequence exactly once and ends |
| RedBlack.RbTree.InOrderIsOrder | bin/json.c:11920-11943 | The ghost order that all contracts speak of is the in-order walk of the links |
| RedBlack.RbTree.CheckOrderDecides | bin/json.c:12324-12342 | rbCheckOrder answers yes if and only if the items ascend between the bounds, strictly so without duplicates |
| RedBlack.RbTree.CheckHeightIsBlackHeight | bin/json.c:12344-12372 | On a valid tree rbCheckHeight computes the black height, which is never the error value |
| RedBlack.RbTree.CheckHeightSound | bin/json.c:12352-12372 | If rbCheckHeight is not zero, then at every node below no red node has a red child and both sides have the same black height |
| RedBlack.RbTree.OraclesAccept | bin/json.c:12324-12372 | Both of the code's own oracles accept every valid tree |
| RedBlack.RbTree.HeightBound | bin/json.c:12352-12372 | 2^height is at most (n+1)^2 in every valid tree, that is, the height is at most 2 log2(n+1) |
| RedBlack.RbTree.Free | bin/json.c:11793-11816 | The callback gets every item that is still stored exactly once |
| RedBlack.RbTree.PostOrderIsItems | bin/json.c:11803-11816 | Freeing children before parents gives up the same items as the in-order walk meets |
| RedBlackRuns.RunConserves | bin/json.c:12003-12232 | Over every sequence of insertions and removals the items stay sorted, and every item ever given is stored, freed, handed back or, only without a free callback, dropped, and exactly once |
| RedBlackRuns.InsertInto | bin/json.c:12003-12086 | An insertion into a tree object is a step of such a run, with or without a callback |
| RedBlackRuns.RemoveFrom | bin/json.c:12147-12232 | So is a removal; a kept item is the one that is returned |
| RedBlackRuns.Execute | bin/json.c:11765-12232 | Any sequence of insertions, and of lookups whose result is removed, on a new tree is a run: the tree ends up valid, and every item inserted is in it, freed, returned or dropped, exactly once |
| RedBlackRuns.InsertStepUnique | bin/json.c:12003-12086 | Where an insertion goes, and its outcome, are determined by the items alone, whatever the shape of the tree |
| JsonForest.NestedHolds | include/json.h:287-297 | Every array of properly nested `last` intervals is the pre-order array of a forest |
| JsonForest.HoldsBuild | include/json.h:287-297 | That forest is unique, and arrays of forests are properly nested |
| JsonForest.ReplaceHolds | bin/json.c:1196-1256 | Replacing one subtree of the forest is, on the array, replacing one interval and shifting the `last` of exactly what lies around and behind it |
| JsonArray.Json.GrowNodes | bin/json.c:1046-1068 | Room for so many more nodes; the capacity grows by 64 at least, exactly if the nodes would not fit, and only then the block may move |
| JsonArray.Json.AllocNode | bin/json.c:1143-1153 | One more leaf behind all other nodes, within the capacity |
| JsonArray.Json.InsertNodes | bin/json.c:1196-1230 | The array gets room at the place, within its capacity, and every `last` is repaired; in particular a descendant that ends at the insertion point does not grow. It tells whether the block moved |
| JsonArray.Json.RemoveNodes | bin/json.c:1232-1256 | The array loses exactly the nodes, with every `last` repaired |
| JsonArray.Json.CopyNodes | bin/json.c:1161-1188 | The copied nodes have the intervals of the source, moved to their place, and its names and values, where a missing one becomes an empty string (sclone, bin/json.c:13774-13781) |
| JsonArray.InsertAppends | bin/json.c:1196-1230 | Making room at the `last` of a node is, on the forest, appending that many leaves to its children |
| JsonArray.OnlyAncestorsGrow | bin/json.c:1215-1226 | Of the nodes in front of the place exactly the parent and its ancestors grow |
| JsonArray.RemoveDeletes | bin/json.c:1232-1256 | Removing the interval of a node is deleting its subtree |
| JsonArray.RemoveToLastLeaf | bin/json.c:2927-2930 | Removing a node and all but the last of its descendants leaves one leaf in its place |
| JsonQuery.FindProperty | bin/json.c:1988-2034 | Objects answer by name, arrays by element value or by number; absent properties and scalars give their error codes |
| JsonQuery.Query | bin/json.c:2042-2111 | A query walks the terms of the key from node to node |
| JsonQuery.Remove | bin/json.c:2442-2454 | Exactly the subtree that the key leads to is deleted; a key that leads nowhere, or to the root, is not found and changes nothing |
| JsonQuery.Update | bin/json.c:2042-2111 | An update sets the leaf, makes the missing objects on the way, and leaves a document; the answer is the index of the leaf |
| JsonPaths.WalkFollows | bin/json.c:2042-2111 | The walk over indices is the walk over the forest, child by child |
| JsonPaths.LeafIsWalk | bin/json.c:2042-2111 | The index that an update answers is the one that a query for the same key answers afterwards |
| JsonPaths.SetThenQuery | bin/json.c:2324-2339 | After a set, the same key finds, at the index answered, a leaf with the value set |
| JsonPaths.SetThenOtherQuery | bin/json.c:2324-2339 | After a set, every key that is neither a prefix nor an extension finds the subtree it found before, or still nothing |
| JsonPaths.DottedSteps | bin/json.c:1932-1985 | The terms of a dotted key are its names, in order, and the last one is the leaf |
| JsonPaths.KeysDiverge | bin/json.c:1932-1985 | Two dotted keys diverge as soon as neither list of names continues the other |
| JsonKeys.KeySteps | bin/json.c:1932-1985 | The terms of a key made of dotted names, numbers in brackets and quoted strings in brackets are those names, numbers and strings, in order; a name in front of a bracket asks for an array, one in front of a dot for an object |
| JsonKeys.NumeralRead | bin/json.c:2003 | The decimal numeral of a number, built by division by ten, is read as that number |
| JsonKeys.SubscriptFinds | bin/json.c:1988-2027 | On every array, the key `[n]` leads to the element with exactly n elements in front of it, and nowhere if there are not that many |
| JsonKeys.SubscriptInside | bin/json.c:2042-2111 | So does `name[n]` from the array that the name leads to; `name[n].rest` and `name[n][m]` go on from that element |
| JsonKeys.NameFinds | bin/json.c:1988-2034 | A plain key leads to the first member of that name in an object, to the first element of that value in an array, unless it begins with a digit, and nowhere otherwise |
| JsonBlend.Blend | bin/json.c:2816-2850 | Blending with flags 0 is the recursive merge on the forest, whenever the source nests within the recursion limit; it fails if the containers of the source nest deeper than that. What an array leaves where the block moves under it is part of the merge, and so is the capacity afterwards |
| JsonBlend.BlendNode | bin/json.c:2876-3012 | One level of the recursion: objects member by member, arrays by elements, scalars by value; for every behaviour of the allocator exactly one outcome. The limit itself and a failure of a member have different error codes |
| JsonBlend.OverwriteArray | bin/json.c:2970-2991 | Sizes are fitted and elements copied such that the destination holds the elements of the source, and nesting holds around it. If making room moved the block, the type is written to the old one, and the destination keeps the type it had |
| JsonBlend.Clone | bin/json.c:3016-3025 | A clone is the merge into an empty document of capacity 64 |
| JsonBlendQuery.BlendThenQuery | bin/json.c:2876-3012 | After a blend, a query for any path of the source through objects finds, whatever the destination had there and however the allocator behaves: for a scalar its type, value and name, for an array copies of exactly its elements and, unless the block moves or there are none, its type, for an object an object, without a value if no object of the destination has one |
| JsonBlendQuery.BlendThenOtherQuery | bin/json.c:2893-2937 | After a blend, a query for a path through objects that the source does not have finds the subtree it found before, or still nothing |
| JsonMoves.BlendIsMergeIff | bin/json.c:2966-2984 | A blend leaves the same merge for every behaviour of the allocator if and only if every source array that meets a tree finds an array there, or a tree that is not smaller, or room for the difference within the capacity |
| JsonMoves.RoomEnough | bin/json.c:2966-2984 | Room for the nodes below the root of the source is room enough, whatever is merged |
| JsonMerge.MergeBase | bin/json.c:2821-3012 | The merge does not depend on where in the array the trees are |
| JsonMerge.MergeMembersChild | bin/json.c:2882-2947 | A member of the merge is that of the destination if only that has it, a copy of the source's if only that has it, or the merge of both |
| JsonMerge.MergeMembersNames | bin/json.c:2882-2947 | Members that were there keep their places; new ones follow in the order of the source |
| JsonMerge.MembersCopied | bin/json.c:2905-2922 | New members are copied to the end, in the order of the source; all of a copy is equal to its original but the missing names and values below arrays, which become empty strings |
| JsonClone.MergeableAny | bin/json.c:2821-3012 | Whether a source with distinct member names can be blended into a tree depends neither on the place nor on the allocator |
| JsonClone.CloneEqualIff | bin/json.c:3016-3025 | The clone of a parsed document is equal to it node by node, whatever the allocator does, if and only if its root is an object and all arrays in it are empty |
| JsonClone.CloneShowsIff | bin/json.c:3016-3025 | Leaving aside the names of elements and the values of containers, which no text shows: the clone is equal, whatever the allocator does, if and only if the root is not an array, or an array with at least one and at most 63 nodes below it |
| JsonClone.ClonePrintsIff | bin/json.c:2576-2692 | With a given allocator, the clone prints as the document does if and only if the root is no array, or an array with elements that does not move the block |
| JsonClone.EmptyArrayClone | bin/json.c:2976-2984 | An empty array is cloned to an empty object |
| JsonClone.BigArrayClone | bin/json.c:2970-2982 | Concretely: the clone of an array of 64 numbers is an object if the reallocation from capacity 64 moves the block, and an array if not; of 63 numbers it always is an array |
| JsonParser.ParsedNested | bin/json.c:1683-1837 | On any text: if parsing succeeds, no parent link is left in a `last`, and the array is the array of a forest |
| JsonParser.StepKeepsInv | bin/json.c:1702-1823 | Every iteration keeps the invariant or fails: the chain of `last` links from the parent goes strictly down, is `level` long, and its innermost node has the current type |
| JsonParser.StepProgresses | bin/json.c:1702-1823 | Every iteration makes progress, even one that consumes no character: then a pending name is used up or a comma is now expected |
| JsonParser.CharsKept | bin/json.c:1563-1638 | Unescaping in place overwrites only what was already read, and never the terminator |
| JsonParse.Parser.ParseText | bin/json.c:1683-1837 | The loop succeeds exactly if its specification does, in the same state; then the nodes nest properly |
| JsonParse.Parser.ParseString | bin/json.c:1563-1638 | The in-place loop does to the buffer what the recursive specification says |
| JsonParse.Parser.ParsePrimitive | bin/json.c:1484-1532 | A blank ends a token and is overwritten; a delimiter ends it and stays; a misplaced dot is an error |
| JsonParse.Parser.ParseRegExp | bin/json.c:1534-1557 | Up to the first slash that no backslash precedes, or an error |
| JsonParse.Parser.ParseComment | bin/json.c:1644-1672 | Past the comment, or an error if it does not end |
| JsonParse.Parser.ParseValue | bin/json.c:1842-1890 | A value becomes a pending name, or exactly one node of its type, or an error |
| JsonParse.Parser.OpenContainer | bin/json.c:1704-1722 | While a container is open, `last` of its node is the index of the one around it |
| JsonParse.Parser.CloseContainer | bin/json.c:1724-1750 | The parent is restored from that link, which becomes the end of the subtree |
| JsonParse.LowByte | bin/json.c:1601-1615 | A four-digit code keeps the low byte of its value, as a char does |
| JsonTokens.ListedNumber | bin/json.c:1892-1915 | For every number of JSON (section 6 of RFC 8259) `[v]` is read, in both modes, as an array of one primitive with exactly that text, if and only if the exponent has no plus sign; with one, the text is refused |
| JsonTokens.ListedLiteral | bin/json.c:1892-1915 | So are `true`, `false` and `null`; `undefined` is a primitive in lenient mode and refused in strict mode |
| JsonTokens.ListedString | bin/json.c:1892-1915 | A word that begins neither with t, f, n or u nor like a number is a string in lenient mode, and refused in strict mode |
| JsonTokens.ListedWord | bin/json.c:1842-1915 | Every word, with or without blanks behind it: it is a primitive if what is looked at is a prefix of one of the literals or looks like a number. With a blank behind it, all of the word is looked at; without one, all but its last character |
| JsonTokens.WordStepped | bin/json.c:1807-1821 | The same wherever a value is expected: as an element, as the value of a member, at the top |
| JsonTokens.DotRefused | bin/json.c:1523-1526 | A dot without a letter or digit in front of it is refused |
| JsonTokens.RegExpStepped | bin/json.c:1534-1557 | Wherever a value is expected, what lies between slashes, up to the first that no backslash guards, is a regular expression |
| JsonTokens.RegExpReadsBack | bin/json.c:2599-2603 | A regular expression is read back as it was printed |
| JsonTokens.BlockPassed | bin/json.c:1657-1668 | A comment up to the first end of one is passed over in lenient mode, and refused in strict mode |
| JsonTokens.LinePassed | bin/json.c:1654-1655 | So is a comment up to the end of the line |
| JsonText.ReadsJsonString | bin/json.c:1563-1638 | Every string of JSON (section 7 of RFC 8259) is read as the characters it means, with a terminator behind them, but that a code of four digits keeps its low byte; parsing goes on behind the quote |
| JsonText.QuotesRead | bin/json.c:1580-1587 | In a string in any quotes, each of the three quotes can stand behind a backslash |
| JsonBrackets.BracketsMatch | bin/json.c:1704-1750 | In every text that is accepted, in either mode, every closing bracket that the loop meets closes the innermost open container and is of its type, and in the end all are closed |
| JsonBrackets.ForbiddenRefused | bin/json.c:1704-1823 | No text is accepted whose parsing comes to a container or bare value where a comma is missing, a wrong closing bracket, a name without a value or a colon without a name, a misplaced comma, a second value outside of containers; nor, while the parser is strict, to a missing name or value, a comment, or a name or string that is not in double quotes |
| JsonPrinter.Printer.NodeToString | bin/json.c:2576-2692 | On one line the printer appends the text of the subtree and returns the index behind it |
| JsonPrinter.Printer.PutValue | bin/json.c:2459-2535 | Quotes where the flags or a character ask for them, every character in its escaped form, `null` for none |
| JsonText.PrintsJsonString | bin/json.c:2494-2535 | With JSON_JSON, every string is printed as a string of JSON (section 7 of RFC 8259) that means exactly its characters |
| JsonText.VerbatimIff | bin/json.c:2494-2530 | In every style, a string is printed as it is if and only if it has no backslash, no quote of the style and no control character, except line breaks, carriage returns and tabs where those are not encoded |
| JsonText.EscapeJoin | bin/json.c:2494-2530 | The parts of a string are printed one by one |
| JsonText.FormsPrinted | bin/json.c:2494-2517 | Every other character is printed behind a backslash: the quote as itself, those with a short form of RFC 8259 in that form, and the others as u and four lower-case hex digits |
| JsonText.EscapeGuarded | bin/json.c:2495-2503 | In every style, the quote occurs between the quotes only behind a backslash |
| JsonText.NamePrinted | bin/json.c:2474-2487 | A name is printed bare if and only if the style allows it and it consists of letters, digits and underscores, at least one; otherwise it is quoted |
| JsonText.TextOkay | bin/json.c:2576-2692 | Every character of a printed document is one of the printer's own or one of a name or value that is printed as it is |
| JsonText.EncodedVisible | bin/json.c:2505-2517 | With JSON_ENCODE there is no control character in the text, whatever is in names and strings, if tokens and regular expressions have none |
| JsonText.NoSpaceAdded | bin/json.c:2576-2692 | The printer adds no space of its own |
| JsonRoundTrip.RoundTrip | bin/json.c:1683-1837 | Lenient parsing of what was printed rebuilds the same array (type, name, value, last) for every document of named members, unnamed elements, strings without NUL and primitive tokens, with double or single quotes, quoted or bare keys, encoded or raw line breaks |
| JsonRoundTrip.CharsRead | bin/json.c:1563-1638 | The string layer, section 7 of RFC 7159: from the printed form of any string without NUL the parser restores the string in place, with its terminator |
| JsonRoundTrip.CharReads | bin/json.c:2494-2530 | Whichever form a character was printed in, the parser stores the character itself |
| JsonRoundTrip.TokenReads | bin/json.c:1484-1532 | A printed token is read as it is, up to the delimiter behind it, which is not consumed |
| JsonRoundTrip.KindMoved | bin/json.c:1892-1915 | A value is classified by its own characters, whatever lies around it in the buffer |
| JsonRoundTrip.NodeReads | bin/json.c:1683-1837 | Reading the text of a node adds the nodes of its subtree and returns to the same container |
| JsonStrict.StrictRefinesLenient | bin/json.c:1683-1837 | On any text: what strict mode accepts, lenient mode accepts too, with the same document |
| JsonStrict.StrictRoundTripIff | bin/json.c:1683-1837 | Strict mode takes a printed document back if and only if, up to the first nested container that is closed, no container is empty, no element of an array is a string, names and strings are in double quotes, and no token is a primitive only for its likeness to `undefined`; then it rebuilds the same array |
| JsonStrict.StringInArray | bin/json.c:1797-1806 | Concretely: an array of one string is refused, as a string does not clear the expectation of a value |
| HashTable.HashCongruent | bin/json.c:13906-13941 | Names that compare equal, with or without case, have the same hash |
| HashTable.CompareCaseless | bin/json.c:14102-14129 | Zero exactly if the names are equal up to case |
| HashTable.HashName | bin/json.c:13906-13941 | The loop computes the 32-bit hash, with wrap-around, of the name or of its lower-case form |
| HashTable.SameNameIff | bin/json.c:14102-14129 | Without case, names are the same if and only if they differ in the case of letters only |
| HashTable.Hash.constructor | bin/json.c:6854-6884 | An allocated table is valid and empty |
| HashTable.Hash.LookupHash | bin/json.c:7256-7297 | The entry of the name if the table has one, with its bucket and the entry in front of it; the search never meets the guard against circular chains |
| HashTable.ChainShort | bin/json.c:7275-7278 | No list is longer than the table, so that the guard against circular chains cannot fire |
| HashTable.Hash.LookupName | bin/json.c:7122-7135 | The value the map has for the name, or NULL |
| HashTable.Hash.AddName | bin/json.c:6917-6974 | The map gains the name with its value and nothing else changes, except that an addition that rehashes forgets the other names whose entries have no flags |
| HashTable.Hash.AddIsUpdateIff | bin/json.c:7236-7252 | An addition is a map update if and only if it does not rehash, or no other name has an entry without flags |
| HashTable.NoFlags | bin/json.c:6928-6972 | An entry is stored without flags if and only if neither the table nor the call says who owns names or values |
| HashTable.CaselessForgets | bin/json.c:6917-6974 | Concretely: a table that was only asked to ignore case forgets nineteen names when it is given the twentieth |
| HashTable.Hash.RemoveName | bin/json.c:7137-7162 | The map loses exactly the name; an unknown name is reported, except by a table without buckets |
| HashTable.Execute | bin/json.c:6917-7162 | Any sequence of additions and removals, with any rehashes on the way, does to the table what it does to a map, if the table or every addition says who owns names or values |
| HashTable.LastDecides | bin/json.c:6917-7162 | In that map a name is decided by the last operation on it |
| HashTable.Hash.GrowBuckets | bin/json.c:7215-7254 | Relinking in place keeps the free list and gives every entry with flags its place in the chain of its hash |
| HashTable.Hash.GrowNames | bin/json.c:7184-7213 | More free entries, all of them on the free list, and the same map |
| HashTable.GetBucketSize | bin/json.c:7172-7182 | The least prime of the list above the size, the largest one beyond it |
| HashTable.UnlinkKeeps | bin/json.c:7148-7153 | Taking an entry out of the middle of a chain leaves every other entry on exactly one list |
| HashTable.Hash.LengthCounts | bin/json.c:6954-6955 | `length` is the number of entries in the chains |
| HashTable.Hash.GetNextName | bin/json.c:7306-7325 | Iterating meets exactly the entries that are in a chain, in the order of the array |
| EventQueue.RunKeepsGood | bin/json.c:4253-4529 | In every state of every run of allocations, stops, extractions, firings and put-backs: pending events are ordered by due time and by linking among equals; every event allocated is in exactly one of pending, due, fired and stopped; fired and stopped events stay so |
| EventQueue.LinkInOrder | bin/json.c:4497-4529 | Linking keeps the order: an event goes behind all that are due at the same time |
| EventQueue.DueIsPrefix | bin/json.c:4382-4404 | In an ordered queue the due events are the first ones, and the deadline is the due time of the next one |
| EventQueue.DueExactly | bin/json.c:4382-4404 | An event is taken out exactly if it is pending and the time is not before its due time; no event is lost or made |
| EventQueue.AllocThenExtract | bin/json.c:4269-4277 | An allocation adds one pending event with the id and the due time given and leaves the others; the next rRunEvents at a time takes it exactly if that time is not below its due time |
| EventQueue.PutBackThenExtract | bin/json.c:4420-4427 | An event that is put back is pending again, the same event but for its due time, and leaves the due list; it is taken exactly if the time is not below that |
| EventQueue.Queue.LinkEvent | bin/json.c:4497-4529 | The pointer list gains the event in front of the first one that is due later |
| EventQueue.Queue.StopEvent | bin/json.c:4301-4321 | The first pending event with the id is taken out, and nothing changes if there is none |
| EventQueue.Queue.ExtractDue | bin/json.c:4359-4405 | All due events move to the due list in their order, none if the runtime is stopping; the result is the least due time of the others; no event object is made |
| EventQueue.Queue.RunNext | bin/json.c:4410-4432 | The first due event fires, or, exactly if it needs a fiber and there is none, is pending again: the same event with the same id, due one tick later, among the old ones |
| EventQueue.Queue.AllocEvent | bin/json.c:4253-4283 | The pending events are the old ones and one more, with the id returned, a new serial number, the flags given, and the due time that is the time plus the delay, or the largest time if that is less; its id was not pending, while at most 10000 are |
| EventQueue.Queue.GetNextID | bin/json.c:4455-4475 | The first id from the next one on, with wrap-around and never zero, that no pending event has, while at most 10000 are pending; the id after it is the next |
| EventQueue.Queue.GetNextDueEvent | bin/json.c:4436-4447 | The least due time of an ordered queue |
| ListSort.Sort | bin/json.c:7830-7861 | For any total preorder: the elements are in order afterwards, and are the same elements; nothing outside the range moves |
| ListSort.Partition | bin/json.c:7842-7858 | The scans end next to each other, the pivot lands between what does not come after it and what does |
| Buffer.RoundBufSize | bin/json.c:3463-3480 | The smear of shifts computes the least power of two that is not below the size, or 64 |
| Buffer.Buf.GrowSize | bin/json.c:3486-3519 | The contents survive the move to a larger array; it fails exactly for sizes that are not positive or above the limit |
| Buffer.Buf.Compact | bin/json.c:3838-3849 | The contents move to the front unchanged |
| Buffer.Buf.PutBlock | bin/json.c:3754-3782 | The contents gain exactly the prefix that is reported: all of it if and only if there is room or the array may grow for it, and otherwise what there is room for |
| Buffer.Buf.PutChar | bin/json.c:3725-3748 | One more character, unless the buffer is full and at its limit |
| Buffer.Buf.GetBlock | bin/json.c:3624-3653 | The reported characters are a prefix of the contents, as long as asked for or all there is, and go |
| Buffer.Buf.GetChar | bin/json.c:3616-3622 | The first character goes, or -1 |

## Left out

- JsonQuery.Update: stated for keys whose steps pass through objects, missing properties and values without children, and whose target, if present, has no children. Setting a value over a container with children leaves its children in the array (bin/json.c:2092-2095), which no forest describes.
- JsonQuery.Query: array steps past the end answer "not found", as the lookup does; the key '$' and lookups that append to arrays (bin/json.c:2061-2083) are not modelled.
- JsonQuery.Remove: leaves out a start behind the last node of a document that is not empty together with no key or a key without terms; there the code reads a node that does not exist.
- JsonBlend.Blend: flags 0 and no keys. Combine, append, replace and conditional modes, blending a document into itself, and a scalar over a container with children (bin/json.c:3006) are not modelled.
- JsonBlend.BlendNode: has the same limits.
- JsonBlend.OverwriteArray: always clears the value of a node that an array overwrites in place. The code does so for values it owns, as all are that jsonSet and blends store; a value that still lies in the parsed text stays behind in the array node, where nothing prints it.
- JsonBlend.Clone: says nothing of the part that is left when the source nests beyond the recursion limit.
- JsonParse.Parser.ParseText: says nothing about the nodes when parsing fails. What is refused is stated for bare values, strings, regular expressions, comments, brackets and misplaced tokens, not by one grammar of all accepted texts.
- JsonRoundTrip.RoundTrip: one line, without JSON_COMPACT, JSON_EXPAND, JSON_BARE and JSON_MULTILINE; regular expressions and primitive tokens that the parser would not take for primitives are outside. Strict mode is the subject of JsonStrict.StrictRoundTripIff.
- HashTable.Hash.AddName: the 24-bit widths of the links and of the number of buckets, the `custom` bits, and copies of names and values are not modelled; rAddDuplicateName is left out.
- EventQueue.Queue.RunNext: the due list is a sequence, not a chain of `next` pointers, and is run to its end before the next extraction. The procedures that events run are not modelled; between two iterations any allocation or stop may happen.
- EventQueue.RunKeepsGood: rRunEvent (bin/json.c:4323-4336) is excluded, as it changes the due time of an event without moving it.
- ListSort.Sort: elements are pointers and are moved as a whole; a comparator that is not a total preorder is outside.
- Buffer.RoundBufSize: words have 64 bits; sizes above 2^63, which would wrap, are outside.
- RedBlack.RbTree.Free: the freed nodes themselves are not modelled, only what the callback gets.
- Allocation failure, ownership bits, locks, triggers and line numbers are not modelled; arrays stay below the limit of nodes, whose check raises the size before it fails (bin/json.c:1058-1062).
- The nodes of a document, the entries and buckets of a hash table are sequences that the methods reassign, where the code moves memory. Pointers into the nodes are modelled where the code keeps one across a reallocation, which is in the array branch of a blend; elsewhere it takes them anew.
- jsonRemove on several documents, templates, iteration macros, date and number conversion, file and path functions, sockets, TLS, fibers, logging and the command line are left out: foreign calls, or simpler than the above.
- The database behind include/db.h is not part of this model, apart from its index tree.
