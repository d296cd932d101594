# Verified models of TissDB, the tokenizer, the lite filter and the convolution

A Dafny 4.11 project that models four cores of the repository and proves what they are for.
`dafny verify dfyconfig.toml` checks all of it.

**TissDB storage.** `BTreeSpec`, `BTreeLaws` and `BTreeHeap` are the B-tree of native_b_tree.cpp at key
level: a heap of nodes changed in place, each method tied to a function on tree values, and the laws of
those functions over every run. `ValueTree` is the tree with its values while it is one leaf or a root
over leaves, and `ValueTreeCode` the nodes that are changed in place; `Stacks` and `StackLaws` say what one leaf
keeps, `CopyLaws` when that is a map, and `TwoLevelLaws` what distinct keys read beyond it.
`Bytes`, `Codec`, `CodecLaws` and `CodecStream` are documents as bytes;
`Crc` is the checksum; `Kms`, `Wal`, `WalLaws` and `WriteAheadLog` are the enciphered, checksummed log and
what is left of it after a tear or damage. `Store`, `StoreLaws`, `TransactionLaws` and `Database` are
collections, buffered transactions and recovery as a state machine, and the classes that take its steps;
`Restarts` opens a store over what a crash has left.
`StoreReads` says what each call does to every read. `SSTable` is the sorted table with its sparse index, and
`ByteLayouts` has the bytes of values, records and rows in numbers.

**TissDB queries.** `QuerySyntax` and `QueryParser` are the expression parser; `QueryGrammar` is the grammar it
is for, level by level, `ParserLaws` says that what the grammar derives is read so, and `ParserSound` that nothing
else is. `Documents` and `Joins` are the three join algorithms. `Json`, `JsonLaws` and `JsonCode` are the JSON codec,
in which indexes keep their lists, and `JsonTexts` exactly the texts that it reads,
those of RFC 8259 without code point escapes; `IndexKeys` says what names
and keys of indexes are; `Indexes` and `IndexedCollection` are string indexes kept in step with documents,
`IndexLists`, `IndexSteps`, `IndexLoading` and `IndexLaws` say exactly when they are while an index is one leaf,
`IndexRoom` which runs keep it so, `IndexGaps` has runs after which they are not, and `IndexDistinct` goes beyond
one leaf; `Select` and `SelectLaws` are the choice between an index and a scan, and `SelectRows` says which rows a
condition has.

**Lite filter.** `LiteFilter` is the shunting-yard compiler and its stack machine; `SharedFilters` relates
it to the TissQL parser.

**Language model.** `BpeSpec`, `Utf8` and `Bpe` are byte-pair training, encoding and decoding; `Sums`,
`Convolution` and `ConvolutionCode` are the index arithmetic of convolution.

`Options`, `TextOrder` and `Arithmetic` are shared helpers.

How the code is rendered. Code that changes things step by step is a method or class with the same fields,
loops and branches, proved against a function; the lemmas are about those functions. An exception is a
result value. `size_t` has 8 bytes, numbers are little-endian, and a C++ string is a sequence of bytes
where it is stored and of characters where it is only compared. Library calls (`std::stod`, printing of
numbers, calendar routines, the regular expression that splits words, JavaScript's comparisons) are
parameters, so what is proved holds for any of them.

What turned out false, with the exact condition or an input that shows it: a hash join joins values that
merely read alike (`Joins.HashAgreesIff`), and the merge loop documents without the join key
(`Joins.MergeLoop`, `Joins.MergedAgreesIff`); nulls, dates and times have no encoding (`CodecLaws.RoundTrip`,
`CodecLaws.NullsAreLost`); recovery does not follow a deleted collection or a put into a missing one
(`StoreLaws.ReplayRebuilds`, `StoreLaws.DroppedComesBack`, `StoreLaws.LostForGood`); what is written after a
torn record is lost unless bytes happen to carry a checksum (`WalLaws.TearSwallows`, `WalLaws.EntryLost`); a
read in a transaction can differ from the read after its commit in id and tombstone
(`TransactionLaws.SameAnswer`); a document id with a quote or backslash breaks its index list
(`IndexLists.PlainNeeded`, `IndexLaws.ExactIff`, `JsonLaws.RoundTripIff`); an index whose key has been shared
and is then emptied gives the ids of deleted documents, which a SELECT dereferences
(`IndexLaws.ExactIff`, `IndexGaps.TombstonesUncovered`, `SelectLaws.MeetsTombstones`), and one that outgrows
a leaf misses documents (`IndexGaps.TwentiethUnseen`); an index can miss numbers
spelled otherwise and empty texts (`SelectLaws.OneFieldIff`, `SelectLaws.NumbersAreLost`,
`SelectLaws.EmptyTextsAreLost`); training a tokenizer again mixes two vocabularies unless every older pair is
learned again (`Bpe.Retrained`, `Bpe.BPETokenizer.EncodeDecodeTwo`, `Bpe.TrainTwice`).
Where comments in the code promise more than the code does, the model follows the code.

## Model

| member | source | states |
|---|---|---|
| BTreeHeap.BTree.constructor | tissdb/storage/native_b_tree.cpp:15-18 | a new tree is well shaped and holds no key; the minimum degree defaults to 10 |
| BTreeHeap.BTree.Insert | tissdb/storage/native_b_tree.cpp:25-33 | the tree stays well shaped and sorted, and its in-order keys gain exactly one copy of the key, equal keys included |
| BTreeHeap.BTree.Erase | tissdb/storage/native_b_tree.cpp:135-140 | the tree stays well shaped and sorted, and loses exactly one copy of a key it holds, nothing otherwise; a root left without keys gives way to its child |
| BTreeHeap.BTree.Find | tissdb/storage/native_b_tree.cpp:94-121 | true if and only if the key is among the in-order keys |
| BTreeHeap.BTree.FindRange | tissdb/storage/native_b_tree.h:90-96 | exactly the in-order keys between the bounds: sorted, and every key from low to high as often as the tree holds it, no other |
| BTreeHeap.Node.SplitChild | tissdb/storage/native_b_tree.cpp:55-89 | in place, a full child becomes its two halves around the median, which moves up; only nodes of this subtree and the new sibling are touched |
| BTreeHeap.Node.InsertNonFull | tissdb/storage/native_b_tree.cpp:36-52 | in place, the whole subtree becomes the value that inserting describes, with full children split on the way down |
| BTreeHeap.Node.BorrowFromPrev | tissdb/storage/native_b_tree.cpp:229-250 | in place, key and last child of the left sibling move over through the separator |
| BTreeHeap.Node.BorrowFromNext | tissdb/storage/native_b_tree.cpp:253-275 | in place, key and first child of the right sibling move over through the separator |
| BTreeHeap.Node.Merge | tissdb/storage/native_b_tree.cpp:278-305 | in place, two siblings and their separator become one node |
| BTreeHeap.Node.Fill | tissdb/storage/native_b_tree.cpp:214-226 | in place, borrow from the left, from the right, or merge, in that order of preference |
| BTreeHeap.Node.GetPredecessor | tissdb/storage/native_b_tree.cpp:196-202 | the largest key of the left subtree |
| BTreeHeap.Node.GetSuccessor | tissdb/storage/native_b_tree.cpp:205-211 | the smallest key of the right subtree |
| BTreeHeap.Node.Erase | tissdb/storage/native_b_tree.cpp:143-166 | in place, one step down the erase with the child refilled first; after a merge with the last child the search goes on in the merged node |
| BTreeHeap.Node.EraseHere | tissdb/storage/native_b_tree.cpp:175-193 | in place, a key of an inner node is replaced by predecessor or successor, or merged down |
| BTreeHeap.Node.Find | tissdb/storage/native_b_tree.cpp:107-121 | search by lower bound in each node finds a key if and only if the subtree holds it |
| BTreeHeap.Node.FindRange | tissdb/storage/native_b_tree.h:99-123 | the loop that alternates children and keys appends exactly the subtree's keys in range |
| BTreeLaws.SplitFlat | tissdb/storage/native_b_tree.cpp:55-89 | splitting a child changes no in-order key |
| BTreeSpec.SplitShape | tissdb/storage/native_b_tree.cpp:55-89 | both halves hold the minimum number of keys, and the parent one more key and child |
| BTreeLaws.PrevLaw | tissdb/storage/native_b_tree.cpp:229-250 | borrowing from the left sibling changes no in-order key |
| BTreeLaws.NextLaw | tissdb/storage/native_b_tree.cpp:253-275 | borrowing from the right sibling changes no in-order key |
| BTreeLaws.MergeLaw | tissdb/storage/native_b_tree.cpp:278-305 | merging changes no in-order key, and the separator is in the merged node |
| BTreeLaws.FillLaw | tissdb/storage/native_b_tree.cpp:214-226 | refilling a child changes no in-order key, and what the child held is still below the place where the search goes on |
| BTreeLaws.Lender | tissdb/storage/native_b_tree.cpp:214-226 | the left sibling gives a key if it has one to spare, else the right one, and the other siblings stay as they are; if neither has, there is one child less |
| BTreeLaws.InsertNonFullLaw | tissdb/storage/native_b_tree.cpp:36-52 | inserting below a node with room keeps its keys sorted and adds one copy |
| BTreeLaws.InsertLaw | tissdb/storage/native_b_tree.cpp:25-33 | inserting at the root, split or not, keeps the keys sorted and adds one copy |
| BTreeLaws.EraseLaw | tissdb/storage/native_b_tree.cpp:143-166 | erasing keeps the keys sorted and removes one copy of a present key, whichever of borrow, merge, predecessor and successor happens |
| BTreeLaws.EraseHereLaw | tissdb/storage/native_b_tree.cpp:175-193 | replacing a key by predecessor or successor, or merging it down, removes exactly that key |
| BTreeLaws.Replacement | tissdb/storage/native_b_tree.cpp:175-193 | what takes the key's place: the largest key before it if the child there can spare one, else the smallest behind it; if neither can, the two children are merged |
| BTreeLaws.EraseRootLaw | tissdb/storage/native_b_tree.cpp:135-140 | removing an empty root changes no in-order key |
| BTreeLaws.FindLaw | tissdb/storage/native_b_tree.cpp:94-121 | in a sorted tree a key is in the node at its lower bound or in the one child there, or nowhere |
| BTreeLaws.RangeStart | tissdb/storage/native_b_tree.h:99-123 | children left of the lower bound hold nothing in range |
| BTreeLaws.RangeStep | tissdb/storage/native_b_tree.h:99-123 | each key in range and the child after it extend the answer |
| BTreeLaws.RangeEnd | tissdb/storage/native_b_tree.h:99-123 | behind the first key above the upper bound there is nothing in range |
| BTreeLaws.StepLaw | tissdb/storage/native_b_tree.cpp:25-33 | every operation keeps key counts, equal leaf depth and order, and moves the multiset of keys by exactly its own key |
| BTreeLaws.RunLaw | tissdb/storage/native_b_tree.cpp:24-305 | after every run from the empty tree the tree is well shaped, sorted and holds exactly the multiset of keys that the run puts in and takes out |
| BTreeLaws.RunsAgree | tissdb/storage/native_b_tree.cpp:24-305 | what a tree holds, in order, depends neither on the order of operations nor on the minimum degree |
| BTreeLaws.SortedUnique | tissdb/storage/native_b_tree.h:99-123 | a sorted sequence is determined by its multiset, so one multiset has one range answer |
| BTreeLaws.InRangeIs | tissdb/storage/native_b_tree.h:99-123 | what a range answer is without reference to the search: of a sorted sequence, the sorted sequence of its elements within the bounds with their repeats |
| ValueTreeCode.BTree.Insert | tissdb/storage/native_b_tree.cpp:25-52 | nodes changed in place become the value that the insert describes, from one leaf through its split to a root over leaves; needs room in an inner root |
| ValueTreeCode.BTree.SplitChild | tissdb/storage/native_b_tree.cpp:55-89 | a full leaf becomes two around its median, which moves up with its value |
| StackLaws.InsertPushes | tissdb/storage/native_b_tree.cpp:36-42 | while the tree is one leaf, a value goes on top of the values that stand under its key, and a tree that is one leaf afterwards was one before |
| ValueTreeCode.BTree.Find | tissdb/storage/native_b_tree.cpp:94-121 | the value at the lower bound in the root, or else in the leaf there, or none |
| StackLaws.FindTop | tissdb/storage/native_b_tree.cpp:94-121 | in one leaf, the newest value standing under the key, or none |
| ValueTreeCode.BTree.Erase | tissdb/storage/native_b_tree.cpp:135-172 | in one leaf, the entry at the lower bound goes with its value |
| StackLaws.EraseBelongs | tissdb/storage/native_b_tree.cpp:169-172 | the newest value goes and the one below it is found again |
| TwoLevelLaws.InsertAdds | tissdb/storage/native_b_tree.cpp:25-89 | every insert that stays within two levels, splits included, adds its entry to the in-order entries |
| TwoLevelLaws.FindReads | tissdb/storage/native_b_tree.cpp:94-121 | within two levels the descent finds what the first in-order entry of the key holds, if no key stands twice |
| TwoLevelLaws.DistinctFound | tissdb/storage/native_b_tree.cpp:25-121 | after inserts of distinct keys that stay within two levels, every key is found with its value and no other key is found |
| TwoLevelLaws.DistinctFit | tissdb/storage/native_b_tree.cpp:25-89 | 199 inserts of distinct keys never bring a third level, in any order |
| CopyLaws.ReadsAsMapIff | tissdb/storage/native_b_tree.cpp:25-52 | over every run of inserts and erases in which the tree stays one leaf, find gives the value inserted last, and none after an erase, if and only if no key is erased while more than one copy of it stands; distinct keys are the special case |
| Bpe.GetPairs | quanta_tissu/tisslm/core/bpe_trainer.py:8-13 | exactly the adjacent pairs |
| Bpe.MergePair | quanta_tissu/tisslm/core/bpe_trainer.py:70-81 | the loop that skips two ids after a match is one left-to-right pass that replaces non-overlapping occurrences |
| Bpe.CountPairs | quanta_tissu/tisslm/core/bpe_trainer.py:51-56 | for every pair, how many words hold it, a word counting once however often or wherever it holds the pair |
| Bpe.BestPair | quanta_tissu/tisslm/core/bpe_trainer.py:51-64 | a pair that stands in the most words, or none if every word is down to one id |
| Bpe.LearnedMost | quanta_tissu/tisslm/core/bpe_trainer.py:48-83 | over a whole training: of the words after the first i merges no pair stands in more than the pair learned next |
| Bpe.BPETokenizer.Train | quanta_tissu/tisslm/core/bpe_trainer.py:25-89 | in each round no pair stands in more of the words, as segmented so far, than the one that is learned, whichever a tie yields; training ends early only when every word is down to one id; learned pairs are gone from the final words and never learned again; a small vocabulary is refused; older merges stay unless replaced, and the tokenizer is as if trained once if and only if every older pair was learned again |
| Bpe.Retrained | quanta_tissu/tisslm/core/bpe_trainer.py:30-69 | merges and learned order fit together after training again if and only if the training learned every older pair |
| Bpe.RoundStep | quanta_tissu/tisslm/core/bpe_trainer.py:50-83 | what one training round keeps: segmentation by all passes so far, older ids only, no learned pair left |
| Bpe.BPETokenizer.EncodeChunk | quanta_tissu/tisslm/core/bpe_trainer.py:91-114 | each pass takes a lowest-ranked pair present until none is learned; on a tokenizer trained once the result is that of all passes in learned order |
| Bpe.BPETokenizer.Encode | quanta_tissu/tisslm/core/bpe_trainer.py:116-125 | however the text is cut into words, the ids expand to the bytes of the text if every merge spells its parts, and on a tokenizer trained once each word to its passes in learned order |
| Bpe.TraceKeepsBytes | quanta_tissu/tisslm/core/bpe_trainer.py:91-114 | lowest rank first keeps the bytes of a word whenever all merges, of whichever training, spell their parts |
| Bpe.BPETokenizer.Decode | quanta_tissu/tisslm/core/bpe_trainer.py:127-169 | the bytes behind the ids are read by lead bytes; ids that spell a valid text decode to that text |
| Bpe.BPETokenizer.EncodeDecode | quanta_tissu/tisslm/core/bpe_trainer.py:116-169 | decoding what was encoded is the text, for every text and every cut into words, on a tokenizer trained once and wherever older merges still spell their parts |
| Bpe.BPETokenizer.EncodeDecodeTwo | quanta_tissu/tisslm/core/bpe_trainer.py:91-169 | a word of two ASCII letters keeps its bytes if and only if its pair is no merge or its id spells it, and then comes back; it comes back otherwise only from an id with other bytes than ASCII |
| Bpe.PairSpelled | quanta_tissu/tisslm/core/bpe_trainer.py:91-114 | the same for the bytes of any two |
| Bpe.StrayByteSkipped | quanta_tissu/tisslm/core/bpe_trainer.py:132-169 | such bytes exist: a continuation byte before a word is skipped in decoding, so it does not spell the word and decodes to it |
| Bpe.BPETokenizer.TrainEncode | quanta_tissu/tisslm/core/bpe_trainer.py:25-114 | on a fresh tokenizer a training word encodes to exactly the segmentation training ended with |
| Bpe.TrainTwice | quanta_tissu/tisslm/core/bpe_trainer.py:30-69 | an instance: trained on "ab" and then on "cd", a tokenizer decodes the encoding of "ab" as "cd" |
| BpeSpec.LearnedOnce | quanta_tissu/tisslm/core/bpe_trainer.py:48-69 | no pair is learned twice |
| BpeSpec.FirstMerged | quanta_tissu/tisslm/core/bpe_trainer.py:70-81 | a pass keeps what is before the first occurrence, puts the new id in its place and goes on behind it |
| BpeSpec.MergeAbsent | quanta_tissu/tisslm/core/bpe_trainer.py:70-81 | a pass for a pair that does not occur changes nothing |
| BpeSpec.PairsAfterMerge | quanta_tissu/tisslm/core/bpe_trainer.py:70-81 | after a pass every pair is an old one other than the merged, or holds the new id |
| BpeSpec.LowestStepLaw | quanta_tissu/tisslm/core/bpe_trainer.py:91-114 | merging the lowest-ranked pair present skips only passes that would do nothing |
| BpeSpec.LowestFirstIsLearnedOrder | quanta_tissu/tisslm/core/bpe_trainer.py:91-114 | every way of merging lowest rank first until nothing merges ends where the learned order ends |
| BpeSpec.MergeKeepsBytes | quanta_tissu/tisslm/core/bpe_trainer.py:66-83 | a pass conserves the bytes that the ids spell |
| BpeSpec.ApplyKeepsBytes | quanta_tissu/tisslm/core/bpe_trainer.py:66-83 | all passes together conserve the bytes |
| BpeSpec.ExpandOne | quanta_tissu/tisslm/core/bpe_trainer.py:127-130 | an id has its own bytes, and none if it is unknown |
| Utf8.Decode | quanta_tissu/tisslm/core/bpe_trainer.py:132-169 | on valid UTF-8 the lead-byte loop skips nothing and yields the text |
| Utf8.DecodeEncode | quanta_tissu/tisslm/core/bpe_trainer.py:132-169 | wherever it starts in the bytes of a text, the loop reads the rest of the text back |
| Utf8.CharBytes | quanta_tissu/tisslm/core/bpe_trainer.py:132-169 | the bytes of a character as section 3 of RFC 3629 has them: how many, which lead bytes, and continuation bytes behind |
| Utf8.CharOrder | quanta_tissu/tisslm/core/bpe_trainer.py:132-169 | the byte order of encoded characters is that of their code points, as section 1 of RFC 3629 says |
| Utf8.Skipped | quanta_tissu/tisslm/core/bpe_trainer.py:132-169 | a byte that leads no character, and a lead byte with too few bytes after it, is skipped |
| Utf8.Taken | quanta_tissu/tisslm/core/bpe_trainer.py:132-169 | otherwise as many bytes as the lead byte says are taken as one slice: the character they encode, or what stands in for a bad slice |
| Documents.GetValueByKey | tissdb/query/join_algorithms.cpp:13-20 | the value of the first element with the key, none if there is no such element |
| Documents.CombineIs | tissdb/query/executor_common.cpp:526-541 | a joined document: both ids with an underscore between; then each side's id and elements, every name under the side's alias and every value as it is, and nothing else |
| Documents.RowOnce | tissdb/query/executor_common.cpp:526-541 | no other document is such a row |
| Joins.NestedLoopJoin | tissdb/query/join_algorithms.cpp:24-47 | there are the pairs of positions with equal join values, each once and in left then right order, and the rows are the joined documents of these pairs, element by element |
| Joins.BuildTable | tissdb/query/join_algorithms.cpp:62-70 | each bucket holds the right documents of one text, in their order |
| Joins.HashJoin | tissdb/query/join_algorithms.cpp:52-85 | the same of the pairs whose join values read the same as text |
| Joins.RowsMade | tissdb/query/join_algorithms.cpp:24-85 | how the rows of any test are made: from exactly the pairs that pass it, in order |
| Joins.HashAgreesIff | tissdb/query/join_algorithms.cpp:24-85 | hash join and nested-loop join give the same sequence if and only if no two different join values read the same as text |
| Joins.SpelledAlike | tissdb/query/join_algorithms.cpp:52-85 | which values do: a text and the null, truth value, number or timestamp that it spells, and the empty text and a date, time or nested value |
| Joins.MoreRows | tissdb/query/join_algorithms.cpp:24-85 | where they differ, hash join gives strictly more rows |
| Joins.StringsTell | tissdb/query/join_algorithms.cpp:52-85 | tables that hold the join value as a string never differ |
| Joins.MergeLoop | tissdb/query/join_algorithms.cpp:109-131 | over sorted tables the two cursors, one of which goes back for every equal left document, give the joined document of each pair with equal merge texts once, a missing value read as the empty text, and terminate |
| Joins.SortMergeJoin | tissdb/query/join_algorithms.cpp:88-132 | the rows are, up to order, the joined documents of the pairs with equal merge texts, repeated keys on both sides included; these are the rows of hash join if and only if no missing value meets an empty text or another missing one, and those of nested-loop join if and only if, besides, texts tell values apart |
| Joins.MissingMeets | tissdb/query/join_algorithms.cpp:94-131 | two missing join values meet, a missing one meets a value that reads as the empty text, and two present ones meet as in the hash join |
| TextOrder.LessIs | tissdb/query/join_algorithms.cpp:94-131 | the order of merge texts, which is also that of index keys: a proper prefix is less, and else the first character that differs decides |
| Joins.MergedAgreesIff | tissdb/query/join_algorithms.cpp:88-132 | the same of any two tables, whatever order their rows are joined in |
| Joins.AllHoldTell | tissdb/query/join_algorithms.cpp:94-104 | tables whose documents all hold the join key never differ so |
| Joins.RightOrderAll | tissdb/query/join_algorithms.cpp:88-132 | the multiset of joined rows does not depend on the order of the right table |
| Joins.LeftOrder | tissdb/query/join_algorithms.cpp:88-132 | nor on that of the left table |
| QueryParser.Parser.ParseExpression | tissdb/query/parser.cpp:621-659 | the loop with its fields for position and placeholder reads what the recursive reader reads, errors included; `ParserSound.ReadIff` says what that is |
| QueryParser.Parser.ParsePrimaryExpression | tissdb/query/parser.cpp:661-784 | atoms, typed literals, intervals, dotted names, placeholders and parentheses as the grammar has them |
| QueryParser.Parser.ParseFunctionCall | tissdb/query/parser.cpp:677-731 | NOW, EXTRACT and DATE or TIME as call or literal |
| QueryParser.Parser.ParseArguments | tissdb/query/parser.cpp:706-715 | the comma loop reads exactly the argument list |
| QueryParser.Parser.Expect | tissdb/query/parser.cpp:796-803 | succeeds on the expected token only, and moves past it |
| ParserLaws.RoundTrip | tissdb/query/parser.cpp:621-784 | a tree written with only the parentheses it needs, anywhere in a token vector, is parsed back as that tree, placeholders numbered from left to right, and parsing stops at the first token after it, which is any that the tree does not go on with |
| ParserLaws.WrittenOnce | tissdb/query/parser.cpp:621-784 | no two trees are written alike |
| ParserLaws.ReadRight | tissdb/query/parser.cpp:641-656 | to the right of an operator of one level of the grammar exactly a phrase of the next level is read: operators associate to the left |
| ParserLaws.GrammarRead | tissdb/query/parser.cpp:621-784 | the grammar names no precedence: conditions of AND and OR over comparisons over sums over products over operands, each from left to right, BETWEEN on a primary with sums as bounds; whatever it derives is parsed as the derived tree |
| ParserSound.ReadIff | tissdb/query/parser.cpp:621-784 | parsing succeeds, with a tree and an end, if and only if the grammar derives the tokens up to there as that tree and nothing behind them goes on with it; every other token vector is an error |
| ParserLaws.ProductsFirst | tissdb/query/parser.cpp:644-645 | the instances for three primaries: a + b * c is a + (b * c), a * b + c is (a * b) + c, and a + b + c is (a + b) + c, for every additive and multiplicative operator |
| ParserLaws.Levels | tissdb/query/parser.cpp:644-645 | the levels of the grammar are the source's precedences |
| ParserLaws.DerivedOnce | tissdb/query/parser.cpp:621-784 | the grammar is unambiguous: no tokens are derived as two trees |
| QuerySyntax.LowerAt | tissdb/query/parser.cpp:673-693 | units and parts are put in small letters: A to Z become a to z and nothing else changes |
| LiteFilter.ToRpn | lite/index.js:281-309 | the two-stack loop computes the shunting-yard function, mismatched parentheses included |
| LiteFilter.RpnOfInfix | lite/index.js:281-309 | every comparison, AND and OR tree written in infix turns into its postfix form |
| LiteFilter.RunFilter | lite/index.js:219-238 | the filter's stack loop over any postfix list |
| LiteFilter.RunPostfix | lite/index.js:219-252 | running a tree's postfix form pushes exactly the tree's value onto any stack; `LiteFilter.BranchValue` and `LiteFilter.LeafValue` say what the value is |
| LiteFilter.Evaluate | lite/index.js:219-309 | from infix tokens to a stack with exactly one element, the value of the tree, which is truthy if and only if the tree holds: conjunctions and disjunctions over comparisons of the operands' values, for any meaning of the comparisons |
| LiteFilter.BranchValue | lite/index.js:243-252 | the value of AND is the left value where that is falsy and else the right one, of OR the left value where that is truthy and else the right one, of a comparison what comparing left with right gives, in that order |
| LiteFilter.LeafValue | lite/index.js:224-229 | the value of a field is the item's, and of a literal what the literal stands for |
| LiteFilter.TruthyIff | lite/index.js:243-252 | a condition's value is truthy if and only if the condition holds |
| LiteFilter.RpnIff | lite/index.js:281-309 | a token list is refused if and only if its parentheses do not match |
| SharedFilters.SameText | lite/index.js:262-268 | both engines write one tree with the same parentheses: their precedence tables agree |
| SharedFilters.SharedCondition | lite/index.js:281-309 | a filter written for both engines is read by both as the same tree |
| Crc.TableIsBitwise | tissdb/common/checksum.cpp:6-39 | each of the 256 table entries is its index shifted bit by bit through the reversed polynomial 0xEDB88320 |
| Crc.StepIsBitwise | tissdb/common/checksum.cpp:43-45 | one table step is eight bit steps, for every register and byte |
| Crc.Crc32 | tissdb/common/checksum.cpp:41-47 | the loop computes the bitwise CRC-32 of section 8 of RFC 1952, on every byte sequence |
| Crc.Calculate | tissdb/common/checksum.cpp:41-47 | the same from any starting register |
| Crc.RegisterInjective | tissdb/common/checksum.cpp:41-47 | different registers stay different under the same bytes |
| Crc.OneByteDetected | tissdb/common/checksum.cpp:41-47 | byte sequences of one length that differ in exactly one byte have different checksums |
| Crc.CheckValue | tissdb/common/checksum.cpp:6-47 | the checksum of the nine digits 123456789 is 0xCBF43926, the published check value |
| Bytes.UnLeLe | tissdb/common/binary_stream_buffer.h:26-39 | little-endian bytes read back as the number modulo their range |
| ByteLayouts.LeAt | tissdb/common/binary_stream_buffer.h:26-31 | byte k of a number is what division by 256 to the k leaves, lowest first |
| Bytes.PrefixedBack | tissdb/common/binary_stream_buffer.cpp:14-57 | a length-prefixed string within the limit is read back with exactly the bytes after it left |
| Bytes.Int32Back | tissdb/common/binary_stream_buffer.h:26-39 | a 32-bit signed number comes back, negative ones included |
| CodecStream.BinaryStreamBuffer.ReadString | tissdb/common/binary_stream_buffer.cpp:14-57 | the moving cursor reads what the function says, refuses lengths over the limit and short streams |
| CodecStream.BinaryStreamBuffer.SerializeValue | tissdb/common/serialization.cpp:31-93 | the recursive writer appends exactly the encoding of the value |
| CodecStream.BinaryStreamBuffer.DeserializeValue | tissdb/common/serialization.cpp:102-172 | the recursive reader gives value, remaining bytes or exception exactly as the decoding function, on any bytes |
| CodecStream.BinaryStreamBuffer.DeserializeElements | tissdb/common/serialization.cpp:135-143 | the counting loop is the recursive reading of that many elements |
| CodecStream.BinaryStreamBuffer.DeserializeFields | tissdb/common/serialization.cpp:158-166 | the loop that assigns map entries, later ones replacing earlier ones |
| CodecStream.Serialize | tissdb/common/serialization.cpp:185-197 | a document's bytes |
| CodecStream.Deserialize | tissdb/common/serialization.cpp:200-217 | a document from any bytes, or an exception; no bytes are an empty document |
| CodecLaws.ValueBack | tissdb/common/serialization.cpp:31-172 | every nested encodable value, followed by any bytes, is read back and leaves those bytes |
| CodecLaws.ReadDocumentEncodable | tissdb/common/serialization.cpp:102-217 | whatever bytes are read, the document is encodable |
| CodecLaws.RoundTrip | tissdb/common/serialization.cpp:31-217 | reading a written document, followed by any bytes, gives the document and leaves those bytes if and only if it holds no null, date or time and no string or byte vector over its limit |
| ByteLayouts.LongestTexts | tissdb/common/binary_stream_buffer.h:52-54 | these limits in numbers: 10 MiB for ids, keys and strings, 100 MiB for binary data |
| ByteLayouts.NoValue | tissdb/common/serialization.cpp:102-172 | no tag, or one above 8, is an exception, and no bytes at all are the empty document |
| CodecLaws.NullsAreLost | tissdb/common/serialization.cpp:83-91 | a null and a date are written as the same bytes |
| CodecLaws.AssignLast | tissdb/common/serialization.cpp:158-166 | reading entries in ascending key order rebuilds the map in that order |
| CodecLaws.AssignSets | tissdb/common/serialization.cpp:158-166 | assigning a key keeps the entries in order, gives that key the new value, present before or not, and changes no other |
| ByteLayouts.ScalarBytes | tissdb/common/serialization.cpp:31-52 | the bytes of strings, numbers, truth values, times and binary data, tag by tag, in numbers |
| ByteLayouts.NestedBytes | tissdb/common/serialization.cpp:53-91 | the bytes of lists, arrays and objects, null ones included, and that nulls, dates and times have none |
| ByteLayouts.DocumentBytes | tissdb/common/serialization.cpp:185-197 | a document is its id, the number of its elements, and each element's key and value |
| Kms.XoredTwice | tissdb/crypto/kms.cpp:53-73 | decrypting with the key that encrypted gives the plaintext, for every key |
| Kms.XoredAt | tissdb/crypto/kms.cpp:53-61 | a byte and its ciphertext differ by the key's byte at its place, the key repeated, so they are the same exactly where that is 0 |
| Kms.KeyManagementSystem.Encrypt | tissdb/crypto/kms.cpp:53-73 | the byte loop is the repeated exclusive or; an empty key changes nothing |
| Kms.KeyManagementSystem.GetDek | tissdb/crypto/kms.cpp:38-47 | the same data key for every name, whether generated now or decrypted from what was stored |
| Kms.KeyManagementSystem.GenerateNewDek | tissdb/crypto/kms.cpp:21-36 | the key of bytes 0 to 31, stored encrypted |
| WriteAheadLog.WriteAheadLog.Append | tissdb/storage/wal.cpp:39-77 | the file gains exactly the record of the entry |
| ByteLayouts.RecordBytes | tissdb/storage/wal.cpp:39-77 | a record is four bytes of length, every byte of the entry against the number of its place modulo 32, and the checksum of these |
| ByteLayouts.SumBytes | tissdb/storage/wal.cpp:71-74 | a checksum is written lowest byte first |
| ByteLayouts.EntryBytes | tissdb/storage/wal.cpp:45-58 | the bytes of an entry, field by field |
| ByteLayouts.Limits | tissdb/common/binary_stream_buffer.h:52-54 | the longest names and documents that are read back, in numbers |
| WriteAheadLog.WriteAheadLog.Recover | tissdb/storage/wal.cpp:79-141 | for any file at all, the entries up to the first record that cannot be read |
| WriteAheadLog.WriteAheadLog.ReadEntry | tissdb/storage/wal.cpp:91-134 | one turn of the loop: length, ciphertext, checksum, decryption and fields, any exception ending recovery |
| WalLaws.ParseBack | tissdb/storage/wal.cpp:45-58 | an entry is read back from its own bytes if and only if its names are at most 10 MiB, its document encodable and at most 100 MiB |
| WalLaws.FrameBack | tissdb/storage/wal.cpp:64-74 | a framed payload below 4 GiB is read back with what follows it |
| WalLaws.FrameTorn | tissdb/storage/wal.cpp:95-104 | a record cut short at any byte is not read |
| WalLaws.FrameDamaged | tissdb/storage/wal.cpp:106-108 | a record with one byte of its ciphertext changed is not read |
| WalLaws.LogBack | tissdb/storage/wal.cpp:39-141 | an undamaged log gives back every entry if and only if all entries are within the limits, payloads whose length wraps included |
| WalLaws.RecordBack | tissdb/storage/wal.cpp:64-134 | a record of any size is read as its entry if and only if the entry is within the limits |
| WalLaws.TornTail | tissdb/storage/wal.cpp:79-141 | a log cut at any byte gives back exactly the entries whose records lie wholly before the cut, in order and intact |
| WalLaws.OneByteDamaged | tissdb/storage/wal.cpp:106-108 | with one damaged payload byte exactly the entries before that record come back, whatever follows |
| WalLaws.BoundaryResumes | tissdb/storage/wal.cpp:26-31 | after a crash on a record boundary, everything appended later comes back if and only if all of it is within the limits |
| WalLaws.TearSwallows | tissdb/storage/wal.cpp:79-141 | whatever is appended after a tear behind the length word, recovery gets past the tear if and only if the length and four more bytes are there and carry their own checksum; otherwise exactly the entries before the tear come back |
| WalLaws.TornLength | tissdb/storage/wal.cpp:79-141 | the same for a tear inside the length word, with the length read from what follows |
| WalLaws.LaterLost | tissdb/storage/wal.cpp:79-141 | everything appended is lost while it is shorter than what the tear cut off |
| WalLaws.EntryLost | tissdb/storage/wal.cpp:79-141 | one appended entry that is lost so, and would come back on its own |
| Database.Collection.Put | tissdb/storage/collection.cpp:115-138 | the key now holds the document |
| Database.Collection.Del | tissdb/storage/collection.cpp:141-155 | a live document becomes a tombstone; anything else stays, and the answer says which |
| Database.Collection.Get | tissdb/storage/collection.cpp:157-171 | absent, tombstone, or the document under its key's name |
| Database.LsmTree.constructor | tissdb/storage/lsm_tree.cpp:26-33 | a store with no collection and no transaction, over the log that is there, before recovery |
| Database.LsmTree.CreateCollection | tissdb/storage/lsm_tree.cpp:109-131 | the step of the state machine: logged unless recovering, refused if the name is taken |
| Database.LsmTree.DeleteCollection | tissdb/storage/lsm_tree.cpp:133-148 | the step: logged, and the collection gone with its documents |
| Database.LsmTree.Put | tissdb/storage/lsm_tree.cpp:170-185 | the step: buffered in a transaction, or logged and then applied; into a missing collection it throws after logging |
| Database.LsmTree.Del | tissdb/storage/lsm_tree.cpp:228-247 | the step for deletion, which answers false where there is nothing to delete |
| Database.LsmTree.Get | tissdb/storage/lsm_tree.cpp:187-211 | the newest buffered write of the transaction, else the collection |
| Database.LsmTree.BeginTransaction | tissdb/storage/transaction_manager.cpp:8-13 | a number never given out before, with an empty buffer |
| Database.LsmTree.AddOperation | tissdb/storage/transaction_manager.cpp:47-63 | the write joins the end of the active transaction's buffer, or throws |
| Database.LsmTree.CommitTransaction | tissdb/storage/transaction_manager.cpp:15-34 | the step: buffered writes made one after the other; an exception in between leaves the transaction active |
| Database.LsmTree.RollbackTransaction | tissdb/storage/transaction_manager.cpp:36-45 | the buffer is dropped and nothing else changes |
| StoreReads.PutSeen | tissdb/storage/lsm_tree.cpp:170-185 | a put is answered by true and from then on read by everyone who has not written the key himself, under its key's name, and no other read changes; into a missing collection it throws and no read changes |
| StoreReads.DelSeen | tissdb/storage/lsm_tree.cpp:228-247 | a delete outside transactions is answered by true if and only if a read before it finds a document; no read after it finds one, and no other read changes |
| StoreReads.CreateSeen | tissdb/storage/lsm_tree.cpp:109-131 | a new collection is empty and no read changes; one of the name is refused |
| StoreReads.DropSeen | tissdb/storage/lsm_tree.cpp:133-148 | a deleted collection is gone with its documents, to all who have not written the key themselves; a missing one is refused |
| StoreReads.Logs | tissdb/storage/lsm_tree.cpp:109-247 | what each of these calls logs, in numbers, whether or not the collection is there |
| StoreReads.EntrySeen | tissdb/storage/lsm_tree.cpp:53-82 | what one log entry does in recovery: puts and deletes as they did, a put into a missing collection throws, a creation adds an empty collection or leaves the one of the name as it is, and no other entry changes anything |
| StoreReads.TxPutSeen | tissdb/storage/transaction_manager.cpp:47-63 | a put in a transaction is read back in it and in no other, and nothing is logged; without the transaction it throws |
| StoreReads.TxDelSeen | tissdb/storage/transaction_manager.cpp:47-63 | the same of a delete |
| StoreReads.BeginSeen | tissdb/storage/transaction_manager.cpp:8-13 | a transaction begins by reading what is read outside |
| StoreReads.FinishSeen | tissdb/storage/transaction_manager.cpp:15-45 | after a rollback the number reads what is read outside and no other read changes; after a commit that goes through it is no longer active |
| Database.LsmTree.Recover | tissdb/storage/lsm_tree.cpp:43-83 | the log's entries replayed into the collections, or an exception at a put into a missing collection |
| StoreLaws.StepDurable | tissdb/storage/lsm_tree.cpp:109-247 | if replaying every prefix of the log gives the store after that many writes, it does after a step if and only if the step deletes no existing collection and puts nothing into a missing one |
| StoreLaws.RunDurable | tissdb/storage/lsm_tree.cpp:43-247 | the same over whole runs from any such state |
| StoreLaws.ReplayRebuilds | tissdb/storage/lsm_tree.cpp:43-83 | from the empty store, replay rebuilds all collections throughout a run if and only if no step of it deletes an existing collection or puts into a missing one, commits included |
| StoreLaws.CrashRecovery | tissdb/storage/lsm_tree.cpp:43-83 | after such a run, a log file cut at any byte recovers to exactly the store after the writes whose records lie wholly before the cut |
| StoreLaws.CleanRestart | tissdb/storage/lsm_tree.cpp:43-83 | with the whole file recovery gives the store as it was |
| StoreLaws.RestartsRecover | tissdb/storage/lsm_tree.cpp:26-83 | after any number of crashes on record boundaries, each followed by recovery and another such run, a file cut at any byte still recovers to the store after the writes before the cut |
| Restarts.Restart | tissdb/storage/lsm_tree.cpp:26-83 | opening a store over a file that a crash has left on a record boundary: constructor and recovery end in the state from which the restarts theorem goes on |
| Restarts.Reopen | tissdb/storage/lsm_tree.cpp:26-83 | opening a store over a file cut at any byte: constructor and recovery end with the collections as they were after the writes before the cut |
| StoreLaws.CommitCut | tissdb/storage/lsm_tree.cpp:43-83 | a crash within a commit leaves its first writes, as many as are wholly before the cut; some and not all if and only if the cut is not before the end of the commit's first record and before the end of its last |
| StoreLaws.LostForGood | tissdb/storage/lsm_tree.cpp:174-182 | one put into a missing collection, which throws, makes every later recovery throw, whatever is done afterwards |
| StoreLaws.DroppedComesBack | tissdb/storage/lsm_tree.cpp:79-81 | a deleted collection is back after recovery with its documents |
| TransactionLaws.CommitIsRun | tissdb/storage/transaction_manager.cpp:22-29 | a commit is its buffered writes made directly, in order, documents and log alike |
| TransactionLaws.ReadsOwnWrites | tissdb/storage/lsm_tree.cpp:187-211 | a read inside a transaction sees the document that would be visible had its buffer just been committed |
| TransactionLaws.SameAnswer | tissdb/storage/lsm_tree.cpp:187-211 | it is the same answer down to id and tombstone if and only if a buffered put carries its key as id and a buffered delete is of a key that was ever there |
| TransactionLaws.StepNumbered | tissdb/storage/transaction_manager.cpp:8-13 | active numbers are below the next one, which only grows |
| TransactionLaws.NeverReused | tissdb/storage/transaction_manager.cpp:8-45 | a finished number is never given out again, and committing it does nothing, over every later run |
| TransactionLaws.TakesEffectAtCommit | tissdb/storage/transaction_manager.cpp:15-34 | a run in which a transaction buffers writes among any other steps and then commits leaves the store as if its writes had all been made at the end |
| TransactionLaws.RollbackUndoes | tissdb/storage/transaction_manager.cpp:36-45 | a rolled back transaction leaves documents and log as if it had never buffered anything |
| IndexedCollection.GetCompositeKey | tissdb/storage/indexer.cpp:59-85 | the NUL-joined parts of the fields, or no key if one is missing |
| IndexedCollection.GetIndexName | tissdb/storage/indexer.cpp:10-19 | field names joined by underscores |
| IndexKeys.NameSnoc | tissdb/storage/indexer.cpp:10-19 | an index is named by its fields with an underscore between any two |
| IndexKeys.KeyIs | tissdb/storage/indexer.cpp:59-85 | a document with all the fields has the key of their parts with a NUL between any two |
| IndexKeys.NoKey | tissdb/storage/indexer.cpp:59-85 | one that lacks a field has none |
| IndexKeys.PartIs | tissdb/storage/indexer.cpp:66-72 | a text is its own part, a number as printed, a truth value by name, and any other value empty |
| IndexKeys.AddIndexAscends | tissdb/storage/indexer.cpp:21-42 | indexes stay in the order of their names, the new one among them |
| IndexedCollection.Indexer.CreateIndex | tissdb/storage/indexer.cpp:21-42 | a new empty non-unique string index, unless one of that name exists |
| IndexedCollection.Indexer.UpdateIndexes | tissdb/storage/indexer.cpp:87-176 | every index in name order has a list with the id inserted under the document's key, unless the one found there has it, stopping at an exception |
| IndexedCollection.Indexer.RemoveFromIndexes | tissdb/storage/indexer.cpp:178-259 | every index has a list without the id inserted, or the key erased if the list found had no other id; unreadable lists stay |
| IndexedCollection.Indexer.FindByIndex | tissdb/storage/indexer.cpp:323-367 | the ids of the list found under the joined values in the index of that name, or none |
| IndexedCollection.Collection.Put | tissdb/storage/collection.cpp:115-138 | the old document leaves the indexes, the new one enters them and then the map |
| IndexedCollection.Collection.Del | tissdb/storage/collection.cpp:141-155 | a live document leaves the indexes and becomes a tombstone |
| IndexedCollection.Collection.CreateIndex | tissdb/storage/collection.cpp:61-75 | the new index is loaded from every live document; an exception on the way escapes, since it is none that the handler catches |
| IndexedCollection.Collection.Scan | tissdb/storage/collection.cpp:173-184 | every live document once, under its key's name, in the order in which the map yields its keys |
| IndexLists.UpdateEncodes | tissdb/storage/indexer.cpp:136-174 | over texts of plain ids an update never throws, and while the tree stays one leaf, or over a map, puts the list with the id on top |
| IndexLists.RemoveEncodes | tissdb/storage/indexer.cpp:226-257 | over texts of plain ids a removal, while the tree stays one leaf or over a map, puts the list without the id on top, or takes the last list away |
| IndexLists.PlainNeeded | tissdb/storage/indexer.cpp:136-174 | in an index over plain ids that stays one leaf or is over a map, putting an id under a nonempty key that has not got it: the list read afterwards holds it if and only if it has no quote and no backslash |
| IndexSteps.PutOne | tissdb/storage/collection.cpp:115-138 | a put that leaves the index one leaf, or over a map, leaves an exact index exact if and only if it takes the last live document off no crowded key (one that two live documents have shared since it was last empty) and its document's id is plain or has no key |
| IndexSteps.DelOne | tissdb/storage/collection.cpp:141-155 | a delete that leaves the index one leaf, or over a map, leaves an exact index exact if and only if it takes the last live document off no crowded key |
| IndexSteps.RemoveUncovers | tissdb/storage/native_b_tree.cpp:169-172 | taking the last document off a crowded key uncovers an older list, and putting the document back under any key does not mend it while there is one leaf |
| IndexLoading.LoadGood | tissdb/storage/collection.cpp:61-75 | a new index loaded from live documents whose ids are plain where they have a key is exact if it is one leaf or over a map |
| IndexLoading.LoadRuined | tissdb/storage/collection.cpp:61-75 | with one other id such an index is not exact, in whatever order the documents are loaded |
| IndexLaws.StepIff | tissdb/storage/collection.cpp:61-155 | over all indexes of a collection a step that leaves each one leaf, or over a map, keeps them exact if and only if it is fine for each, and put never throws |
| IndexLaws.ExactIff | tissdb/storage/collection.cpp:61-155 | over every run from an empty collection that leaves every index one leaf, or over maps, lookups give exactly the live documents throughout if and only if no put or delete takes the last live document off a crowded key and no document whose id holds a quote or a backslash gets a key |
| IndexRoom.RoomEnough | tissdb/storage/native_b_tree.cpp:25-33 | a bound to check before the calls: where they add at most nineteen lists (a fresh put one, a put over a live document two, a delete one, a new index one for each live document), every index stays one leaf |
| IndexRoom.FewCallsIff | tissdb/storage/collection.cpp:61-155 | within that bound the same equivalence holds of every run |
| IndexLaws.LookupExact | tissdb/storage/indexer.cpp:323-367 | after every such run whose steps are all fine, looking up a nonempty key gives, without repeats, exactly the ids of the live documents with that key |
| IndexLaws.ReplacingExact | tissdb/storage/indexer.cpp:87-259 | over maps whose insert replaces, which the code is written for, the equivalence holds of every run, and every run over plain ids keeps lookups exact |
| IndexGaps.TombstonesUncovered | tissdb/storage/native_b_tree.cpp:169-172 | put a, put b, delete b, delete a under one key: the lookup gives a and b |
| IndexGaps.TwentiethUnseen | tissdb/storage/native_b_tree.cpp:26-121 | the bound is needed and tight: of 20 documents put under one key, by calls that are all fine, 19 keep one leaf, and after the twentieth the lookup gives the first 10 |
| IndexDistinct.DistinctKeysExact | tissdb/storage/native_b_tree.cpp:25-121 | beyond one leaf: up to 199 documents with plain ids put under keys of their own, any fields and any order, are all looked up exactly |
| Select.BestIndex | tissdb/query/executor_select.cpp:109-122 | a fully compared index with the most fields, or none if no index is |
| Select.FilterDocs | tissdb/query/executor_select.cpp:234-248 | the documents that satisfy the condition in their order, or an exception; the next rows say which do |
| SelectRows.OrRows | tissdb/query/executor_common.cpp:303-304 | where neither side throws, the rows of OR are exactly the documents that are rows of either side |
| SelectRows.AndRows | tissdb/query/executor_common.cpp:301-302 | and the rows of AND exactly those that are rows of both |
| SelectRows.ShortCircuit | tissdb/query/executor_common.cpp:299-305 | AND and OR throw for a document exactly when the left side throws, or is left undecided and the right side throws; which documents are rows then, likewise |
| SelectRows.RowByRow | tissdb/query/executor_select.cpp:234-248 | the rows of many documents are those of each, in order, and one that throws spoils them all |
| SelectRows.TextEquals | tissdb/query/executor_common.cpp:36-70 | a string equals a text as a text if either is no number, as a number if both are, and throws if either is out of range |
| SelectRows.NumberEquals | tissdb/query/executor_common.cpp:36-70 | a number equals a text that reads as a number if and only if the numbers are equal, and any other text if it is printed so |
| SelectRows.OtherEquals | tissdb/query/executor_common.cpp:36-70 | truth values, null and timestamps equal the text that spells them; dates, times and nested values equal none |
| SelectRows.FieldIs | tissdb/query/executor_common.cpp:566-577 | the value compared: the document's id for id and _id, else the first element of the name, else null |
| SelectRows.ConditionsAre | tissdb/query/executor_common.cpp:543-564 | a field is extracted if and only if a part joined by AND compares it with a text, and then with the last such text |
| SelectRows.DocsAre | tissdb/query/executor_select.cpp:138-145 | the documents of a plan: the live ones among the ids, under their ids and with their elements as stored |
| Select.Execute | tissdb/query/executor_select.cpp:95-248 | rows are the filtered documents of a scan if no index is fully compared, or else of a lookup in an index with the most fields of such; a lookup that meets a tombstone is told; without WHERE, all documents |
| SelectLaws.ConditionsImplied | tissdb/query/executor_common.cpp:543-564 | a document that satisfies a condition satisfies every equality extracted from it |
| SelectLaws.PlanIsScan | tissdb/query/executor_select.cpp:104-149 | with an exact index, filtering the lookup gives the rows of a scan up to order if and only if every live document that satisfies the condition has the key and it is not empty |
| SelectLaws.OneFieldIff | tissdb/query/executor_select.cpp:104-149 | for a comparison of one indexed field with a text: if and only if, wherever a live document's field equals the text, the text is not empty and the document stores it under the field |
| SelectLaws.FieldsIff | tissdb/query/executor_select.cpp:104-149 | for any condition and any compared fields without NUL: if and only if every live document that satisfies the condition stores every compared text and the key is not empty |
| SelectLaws.IndexPlanSound | tissdb/query/executor_select.cpp:104-149 | that is so for every exact index over fields that hold, in every live document, nonempty NUL-free strings that stod rejects, compared to such strings |
| SelectLaws.AnyPlanIsScan | tissdb/query/executor_select.cpp:95-248 | after any run of fine steps that leaves every index one leaf, or over maps, whatever plan is chosen over such fields meets no tombstone and its rows are those of a scan up to order |
| IndexLaws.StepNamed | tissdb/storage/indexer.cpp:10-42 | every index keeps the name of its fields and no two share one, so a plan reads the index it chose |
| SelectLaws.NeverStuck | tissdb/query/executor_select.cpp:138-145 | a lookup in an exact index never gives the id of a tombstone, so there the unguarded dereference is safe |
| SelectLaws.MeetsTombstones | tissdb/query/executor_select.cpp:138-145 | where the index is not exact it is not safe: after two documents with one word are put and deleted, the later first, the plan for that word dereferences two tombstones |
| SelectLaws.RowLost | tissdb/query/executor_select.cpp:104-149 | a document that equals the text without storing it under the field is a row of the scan and not of the plan |
| SelectLaws.NumbersAreLost | tissdb/query/executor_common.cpp:36-48 | an instance: a number compared to another spelling of it |
| SelectLaws.EmptyTextsAreLost | tissdb/storage/indexer.cpp:136-139 | an instance: the empty text, which no index holds |
| JsonCode.Tokenizer.Tokenize | tissdb/json/json.cpp:28-49 | the character loop yields the tokens of the text, or an exception |
| JsonCode.Tokenizer.ParseString | tissdb/json/json.cpp:53-71 | text up to the closing quote with escapes replaced |
| JsonCode.Tokenizer.ParseLiteral | tissdb/json/json.cpp:79-83 | one of the expected words, and the text after it |
| JsonCode.Parser.ParseJson | tissdb/json/json.cpp:105-115 | the value at the cursor and the tokens after it, or an exception |
| JsonCode.Parser.ParseObject | tissdb/json/json.cpp:116-130 | members in any order, a later one replacing an earlier one of its key |
| JsonCode.Serialize | tissdb/json/json.cpp:158-194 | the text of a value |
| JsonCode.ParseText | tissdb/json/json.cpp:148-154 | a whole text is one value and nothing after it |
| JsonTexts.ParsedIff | tissdb/json/json.cpp:28-154 | a text parses to a value if and only if it is written with the tokens of that value: spaces anywhere between, strings with the two-character escapes of section 7 of RFC 8259 and no others, rows of number characters that stod reads, a later member replacing an earlier one |
| JsonTexts.StringRead | tissdb/json/json.cpp:53-71 | every string, written with those escapes, parses back to itself |
| JsonTexts.NumberRead | tissdb/json/json.cpp:72-78 | every row of digits, signs, dots and exponents that starts with a digit or a minus is one number, or an exception if stod refuses it |
| JsonTexts.SpelledRead | tissdb/json/json.cpp:53-71 | however a string is escaped between its quotes, it is read as itself and reading stops behind the quote |
| JsonTexts.FormRead | tissdb/json/json.cpp:105-143 | the tokens of any nested form, before any others, parse to its value and leave the others |
| JsonTexts.ShownLists | tissdb/json/json.cpp:158-194 | what is written for texts, numbers, truth values, null and lists |
| JsonTexts.ShownMembers | tissdb/json/json.cpp:158-194 | what is written for objects |
| JsonLaws.AssignSets | tissdb/json/json.cpp:123 | assigning a key keeps the members in order, gives that key the new value, present before or not, and changes no other |
| JsonLaws.ShowBack | tissdb/json/json.cpp:28-88 | the text of a value, before anything that cannot continue a number, has exactly the value's tokens |
| JsonLaws.TokensParse | tissdb/json/json.cpp:105-143 | the tokens of a value, before any others, parse to the value and leave the others |
| JsonLaws.RoundTrip | tissdb/json/json.cpp:148-194 | parsing a serialized value gives it back when strings and keys hold no quote or backslash and numbers print as one token that reads back |
| JsonLaws.RoundTripIff | tissdb/json/json.cpp:148-194 | any nested value, if its numbers print as tokens that read back, comes back if and only if no string and no key in it holds a quote or a backslash |
| JsonLaws.ParsedWeighs | tissdb/json/json.cpp:105-143 | tokens weigh at least as much as the quotes and backslashes in the strings and keys of the value they parse to, counted twice, replaced object members included |
| JsonLaws.LastRead | tissdb/json/json.cpp:53-71 | behind plain strings, a string is among those its list is read as if and only if it is plain |
| JsonLaws.StringsRoundTrip | tissdb/json/json.cpp:148-194 | a list of strings comes back if and only if no string holds a quote or a backslash |
| JsonLaws.TokensMarks | tissdb/json/json.cpp:28-71 | the tokens of any text weigh at most as much as the text has quotes and backslashes |
| JsonLaws.ReadMarks | tissdb/json/json.cpp:148-154 | whatever a text is read as, it has two of its quotes and backslashes for each in a string read |
| JsonLaws.OnceOrTwice | tissdb/json/json.cpp:158-194 | the writer leaves each of them once, which is the same exactly where there are none |
| SSTable.WriteRows | tissdb/storage/sstable.cpp:145-170 | the rows one after the other, and the offset of every 16th |
| ByteLayouts.RowBytes | tissdb/storage/sstable.cpp:145-170 | a row is its key, then its enciphered document or a length of all ones |
| ByteLayouts.Sixteenths | tissdb/storage/sstable.cpp:145-170 | the sparse index has the first row and every sixteenth after it, each with the number of bytes before it |
| SSTable.Table.Find | tissdb/storage/sstable.cpp:45-100 | with the sparse index as written, every key in the table is found with its document's bytes, a tombstone as empty, a value over 100 MiB as an exception; every absent key below the largest is not found |
| ByteLayouts.ValueIs | tissdb/storage/sstable.cpp:67-94 | what is found for a row: its document's bytes up to 100 MiB, an exception above, no bytes for a tombstone |
| Bytes.LessIs | tissdb/storage/sstable.cpp:50-94 | the order of keys: a proper prefix is less, and else the first byte that differs decides |
| SSTable.Table.ReadRow | tissdb/storage/sstable.cpp:67-94 | one turn of the loop on any bytes |
| SSTable.RowTurn | tissdb/storage/sstable.cpp:67-94 | at the start of a row the scan stops with its value, stops for good, or skips to the next row |
| SSTable.PastBlock | tissdb/storage/sstable.cpp:61-65 | a scan that reaches the next marked key has not missed the key |
| SSTable.StartInside | tissdb/storage/sstable.cpp:50-55 | the scan starts at or before the key |
| ConvolutionCode.Im2Col | quanta_tissu/tisslm/core/convolution.py:4-32 | each matrix entry is the pixel of the zero-padded image under its kernel and window position |
| ConvolutionCode.CopySlice | quanta_tissu/tisslm/core/convolution.py:24-28 | one strided slice is copied, and no index leaves the padded image |
| ConvolutionCode.Col2Im | quanta_tissu/tisslm/core/convolution.py:34-61 | each pixel is the sum of what every kernel position adds to it |
| ConvolutionCode.AddSlice | quanta_tissu/tisslm/core/convolution.py:55-59 | adding along a strided slice, which takes no position twice, adds one kernel position's share everywhere |
| Convolution.StridesFit | quanta_tissu/tisslm/core/convolution.py:17-28 | every strided index stays inside the padded image, and every slice has exactly the output's length |
| Convolution.GatheredScatters | quanta_tissu/tisslm/core/convolution.py:34-61 | a pixel receives exactly the matrix entries that im2col copies it to |
| Convolution.Transpose | quanta_tissu/tisslm/core/convolution.py:4-61 | over exact numbers the inner product of im2col(x) with any matrix is that of x with col2im of the matrix, for every shape, kernel, stride and padding that fits |
| Convolution.PlaceIs | quanta_tissu/tisslm/core/convolution.py:23-31 | reshape and transpose put each kernel and window position at one row and column |
| Convolution.EntryAt | quanta_tissu/tisslm/core/convolution.py:4-32 | the matrix in plain arithmetic: a row for every image and window, a column for every channel and kernel position, in that order, and in it the image's pixel or zero in the padding |
| Sums.Adjoint | quanta_tissu/tisslm/core/convolution.py:4-61 | gathering and scattering along the same places are transposes of each other |

## Left out

- Values in the B-tree: internal splits drop them (native_b_tree.cpp:61-63), replacement by predecessor or successor skips them (181, 187), so they are modelled for one leaf and a root over leaves, and larger trees by their keys; `foreach`, `dump` and `load` are left out. Keys of `BTreeHeap` are integers; the code is generic over ordered keys.
- BTreeHeap.BTree.Find: says whether the key is there, not the value found; `ValueTreeCode.BTree.Find` does, for up to two levels. The same holds for BTreeHeap.BTree.FindRange and the methods of `Node`.
- ValueTreeCode.BTree.Insert: requires that an inner root has room, because the split of a full one drops values.
- ValueTreeCode.BTree.Erase: requires one leaf; what erasing from several nodes does to their values is open.
- BTreeHeap.BTree.constructor: requires a minimum degree of 2; with 1 a leaf can be empty, and the source then reads the last key of an empty vector (native_b_tree.cpp:201). The source only instantiates 10.
- Node allocation, `unique_ptr` and move semantics beyond ownership of a subtree by its parent.
- Joins.SortMergeJoin: requires of a table with more than one document that all of them hold the join key, because the source's comparator (join_algorithms.cpp:94-102) puts a document without it before itself and `std::sort` is then undefined; any sorted rearrangement of the tables stands for the sort.
- Joins.NestedLoopJoin: values are compared as the model's values, so a NaN equals itself here; dates, times, binary and nested values are told apart by an opaque number.
- QueryParser.Parser.ParseExpression: token vectors end with an end token, as the tokenizer makes them; a position past the end is not modelled. Calendar routines are a parameter.
- LiteFilter.Evaluate: the regular-expression tokenizer is not modelled, only its tokens; stack[0] of an empty program is `undefined` in the source and an empty stack here.
- `_buildWixFilter` and the Wix Data calls.
- Bpe.BPETokenizer.Train: the splitting expression, progress printing and `reverse_vocab` are left out; any cut of the text into words is allowed, and any of the most frequent pairs.
- Saving and loading a tokenizer.
- CodecStream.BinaryStreamBuffer.DeserializeValue: reading a truth value from a byte other than 0 and 1 is undefined in the source and true here; memory exhaustion by a huge count is the same exception as the end of the stream.
- Codec numbers are the 64 bits of a double; date-times are their nanosecond count. Schemas are not part of the codec model.
- The `operations` and `schema_data` fields of a log entry are never written and are left out.
- Failing writes, flushes and file systems; the model's file is its bytes.
- Kms.KeyManagementSystem.Encrypt: the cipher is the exclusive or of the source; nothing is claimed about secrecy. The constructor's refusal of an empty master key is left out.
- Store: collections are without schema and secondary index here, and `load_collections` is left out, so a directory without a log entry does not appear after recovery. Log entries for whole transactions are never written by the code and have no effect here.
- TransactionLaws.NeverReused: numbers are unbounded; the source's counter wraps after 2^31 transactions. The mutex is not modelled; steps are atomic, so a commit is one step with no reader in between.
- IndexedCollection.Indexer.CreateIndex: unique indexes, timestamp indexes and reloaded indexes are left out (`indexes_.at` and `index_types_.at` throw on those paths).
- IndexLaws.ExactIff: requires that every index stays one leaf or is over a map, and so do the members that build on it; `IndexRoom.RoomEnough` bounds the calls that keep it so. Beyond one leaf `IndexDistinct.DistinctKeysExact` holds of keys of their own and `IndexGaps.TwentiethUnseen` shows that shared keys fail; the exact condition there, and what an erase from several nodes leaves, are open. A parameter chooses between the tree and a map whose insert replaces.
- Database and IndexedCollection each model the part of `Collection` they need: the first without indexes, for recovery, the second with them.
- Select.Execute: joins, unions, grouping, aggregates, ORDER BY and LIMIT are left out, and of the conditions only AND, OR and `field = 'text'` are evaluated; all others are a parameter. Dates and times never equal a text, as in the source.
- SelectLaws.PlanIsScan: requires that the condition throws for no live document; a scan evaluates it for every document and an index plan only for some, so a query can throw in one plan only.
- JsonLaws.RoundTripIff: requires that numbers are faithful, that is, print as one number token that reads back, which integers below a million do; parsing and printing numbers are parameters.
- StoreLaws.RestartsRecover: every crash but the last is on a record boundary; a tear that is written over is the matter of `WalLaws.TearSwallows`.
- Bpe.BPETokenizer.EncodeDecode: with older merges that do not spell their parts, exactly which longer texts come back is not characterised; words of two ASCII letters are.
- SSTable.Table.Find: keys above the largest run on into the index block and are left open; `load_index` is left out, because writer and reader checksum different bytes (sstable.cpp:183, 287); so is merging. The data key's name is immaterial.
- ConvolutionCode.Im2Col: arithmetic is over exact reals, images are given as functions of their indices, and numpy's slices are parallel assignments; `Conv2D` itself is left out.
- Memtable size accounting, the query-string tokenizers, audit, authentication, HTTP and the command line.
