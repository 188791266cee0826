# Verified models of contrib modules

This project models six modules from the contrib directory of the database and
proves what their code promises, for all inputs and all runs. Run
`dafny verify dfyconfig.toml` to check it (Dafny 4.11).

Code that changes things step by step is modelled as methods and classes with
loops and arrays, each proved against a specification function; what the code is
for is then proved about those functions. Code that only computes is modelled by
functions.

**Boolean queries over integer arrays** (`IntQuery*.dfy`,
`contrib/intarray/_int_bool.c`). The input function reads a text with a one-pass
operator-stack parser, builds reverse polish notation in a linked list, copies it
to an array and computes links. `IntQueryGrammar` gives an independent grammar and
lexer, and `IntQueryUnique` proves it unambiguous. The main results: a text is
accepted exactly when it is a sentence of the grammar within three limits; the links
describe the tree of its meaning; the
evaluators compute that meaning, and the index variants exactly a looser one that
loses no row; printing and
reading back gives the same query with its conjunctions grouped from the left, and
printing is then stable.

**Key/value pairs** (`HStore*.dfy`, `contrib/hstore`). A datum is a packed block:
entry words with end positions, then all keys and values. Its meaning is a finite
mapping from strings to nullable strings, and one mapping has exactly one packed
form. The main results: every operation (search, delete, concatenate, slice,
containment, comparison) does to the mapping what its name says and returns a
well-formed block of exact size; comparison is a total order, given by first
differences, that is zero exactly for equal mappings; the reader accepts exactly a given grammar; printing and
reading back returns the packed form of the pairs; old-format values are converted
in place to the packed form of the pairs they denoted; GIN and GiST searches return
exactly the matching rows.

**Prefix-truncated index keys** (`Var*.dfy`,
`contrib/btree_gist/btree_utils_var.c`). Internal keys of byte strings are cut to
the common prefix and a little more, so an upper bound may be below values it
stands for. The main results: an exact condition for a key never to reject a
matching value; union keeps it through any number of levels, and a page split keeps
it exactly when no entry overshoots, so a search of a tree built from both finds
exactly the matching values for all six strategies; a page whose split loses a value.

**Bloom filter index** (`Bloom*.dfy`, `Bitwise.dfy`, `contrib/bloom`). The main results: the
random generator computes 16807 x modulo 2^31 - 1 without overflow, and stays out
of zero for all seeds but two; a column sets exactly the bits its number and hash
choose, so there are no false negatives; with inserts, vacuum and page reuse interleaved
in any way at the granularity of page locks, every reachable state holds exactly
the inserted tuples minus the removed ones, and a concurrent scan finds every
surviving row that matches; where an insert puts its tuple, and what a vacuum leaves,
when they run alone.

**B-tree verification** (`Btree*.dfy`, `contrib/amcheck/verify_nbtree.c`). The main
results: the comparisons used by the checks decide one total order with truncated
attributes as minus infinity; a page passes exactly when its items, high key, right
neighbour and children are in that order; the walk over a level succeeds exactly on
well-linked levels of such pages, and the whole check exactly on trees of such levels; exactly when the walk, or the look for a live page to the right, never ends;
what success implies about item order across pages and about descents, and exactly
where it implies nothing, with examples.

**Multidimensional cubes** (`Cube*.dfy`, `contrib/cube/cube.c`). The
main results: union, overlap and containment on boxes of mixed dimension; trees keyed
by union lose no member in a search, except for contained-by, with the exact condition
on query and member; the comparison function is
transitive exactly on cubes with at most one non-zero dimension; distances of index
keys bound those of their members, as nearest-neighbour search needs.

## Where the code and its description differ

- `contrib/bloom/blutils.c:233-241`: the comments give the ranges 1 to 0x7ffffffe
  and 0 to 0x7ffffffd. For the seeds 0xffffffff and 0x80000001 the state is 0 and
  the result is -1 from then on (`BloomSign.SeedStates`, `BloomSign.BitsInRange`;
  a value's hash can lead there in every column, `BloomSign.BadHash`).
- `contrib/btree_gist/btree_utils_var.c:545-556`: a split cuts both halves at the
  larger common prefix. For internal entries this can turn away a stored value
  (`VarLoss.SplitLoses`; exact condition in `VarSplit.SplitExact`).
- `contrib/hstore/hstore_compat.c:250-256`: the shortcut for short values takes some
  valid old values for new ones (exactly which: `HStoreUpgrade.OldTakenAsNew`). A
  null then becomes an empty string (`HStoreUpgrade.NullMisread`), or the value gets a
  length beyond its end (`HStoreUpgrade.MisreadOverruns`).
- `contrib/amcheck/verify_nbtree.c:1330-1526`: a page without comparable items stops
  the check across pages (`BtreeLevels.LevelExact`,
  `BtreeLimits.EmptyPageHidesDisorder`).
- `contrib/amcheck/verify_nbtree.c:559-579`: block 0 as first downlink ends the check
  of all levels below without an error (`BtreeLevels.ReachesLeaves`,
  `BtreeLimits.LeavesMissing`).
- `contrib/amcheck/verify_nbtree.c:1366-1392`: the comment expects to come to a live
  page or the end of the level before too long. The loop over ignorable pages ends
  exactly when their links have no circle (`BtreeCheck.SkipEndsExactly`); with a deleted
  page linked to itself it never ends, and the walk does not come to report that page
  (`BtreeLimits.SelfLinkedNeverEnds`).
- `contrib/amcheck/verify_nbtree.c:715-740`: half-dead pages are passed over without
  comparing their left links, so a ring of them keeps the walk going for ever
  (`BtreeLimits.RingNeverEnds`; exactly when, on the pages alone, in
  `BtreeCheck.EndlessExactly`).
- `contrib/amcheck/verify_nbtree.c:1632-1663`: a downlink is compared with the items of
  the child alone, so a separator bounds what is further down exactly along descents
  that follow no first item after it (`BtreeTower.BoundExactly`).
- `contrib/cube/cube.c:651-676`: the contained-by test of the index is not a bound
  for queries with more dimensions than a member: such a member is sure to be found
  exactly when the query holds zero in those dimensions (`CubeTree.ContainedByFinds`,
  `CubeTree.ContainedByLoses`).
- `contrib/cube/cube.c:888-966`: the comparison behind the B-tree operator class is
  not transitive across dimensions (`Cube.TransitiveExactly`).

## Model

| member | source | states |
|---|---|---|
| IntQueryGrammar.DigitRun | contrib/intarray/_int_bool.c:86-90 | the digits a numeral takes: all of the run and nothing after it |
| IntQueryGrammar.LeadingNumeral | contrib/intarray/_int_bool.c:63-104 | a text that starts with a digit or sign starts with a numeral (strtol syntax, "-" alone included), and the next character is no digit |
| IntQueryGrammar.PostInjective | contrib/intarray/_int_bool.c:153-224 | two queries with the same reverse polish notation are the same query |
| IntQueryParser.NextIsLexed | contrib/intarray/_int_bool.c:48-131 | whatever token gettoken returns is the first token of the remaining text under an independent lexer, is allowed in the state, and moves state and parenthesis count as that token should; the end is reported only at nesting depth 0 with nothing left |
| IntQueryParser.LexedIsNext | contrib/intarray/_int_bool.c:48-131 | conversely every token the lexer sees and the state allows is returned, except at the end of the text inside parentheses |
| IntQueryParser.LexedIsEnd | contrib/intarray/_int_bool.c:48-131 | the end is reported when no token is left, no operand is due and no parenthesis is open |
| IntQueryParser.CompileFactor | contrib/intarray/_int_bool.c:153-224 | for every factor of the grammar: makepol emits its reverse polish notation followed by all pending "!" and "&", and fails with "statement too complex" exactly when the factor does not fit the 16-entry stack |
| IntQueryParser.CompileNot | contrib/intarray/_int_bool.c:168-199 | the same for "!" in front of a factor: it waits on the stack and comes out behind its operand |
| IntQueryParser.CompileParen | contrib/intarray/_int_bool.c:190-206 | the same for a parenthesised query: the recursive call starts with a stack of its own |
| IntQueryParser.CompileTerm | contrib/intarray/_int_bool.c:153-224 | a conjunction leaves an empty stack or a lone "or" as it was and emits the notation of the conjunction |
| IntQueryParser.CompileOr | contrib/intarray/_int_bool.c:177-189 | a second "or" on a level stands in for the one on the stack: afterwards the stack holds one "or" and everything before it has been emitted |
| IntQueryParser.CompileQuery | contrib/intarray/_int_bool.c:153-224 | a whole level leaves its last "or" pending and has emitted the rest |
| IntQueryParser.SentenceFromOperand | contrib/intarray/_int_bool.c:153-224 | if makepol succeeds in any reachable stack configuration with an operand due, what it read completes that configuration to a sentence |
| IntQueryParser.SentenceFromNumber | contrib/intarray/_int_bool.c:168-176 | the case of a number |
| IntQueryParser.SentenceFromNot | contrib/intarray/_int_bool.c:177-189 | the case of "!" |
| IntQueryParser.SentenceFromOpen | contrib/intarray/_int_bool.c:190-199 | the case of "(", with the sentence of the inner level |
| IntQueryParser.SentenceFromOperator | contrib/intarray/_int_bool.c:153-224 | the same with an operator due: end, ")" , "and", "or" |
| IntQueryParser.SentenceOfLevel | contrib/intarray/_int_bool.c:153-224 | whatever one nesting level consumes is a query of the grammar |
| IntQueryParser.SentenceCompiles | contrib/intarray/_int_bool.c:153-224 | every sentence compiles to the notation of its meaning if it fits the stack, and is refused as too complex if it does not |
| IntQueryParser.CompiledIsSentence | contrib/intarray/_int_bool.c:153-224 | every text that compiles is a sentence that fits the stack, and the output is the notation of its meaning |
| IntQueryUnique.QueryRead | contrib/intarray/_int_bool.c:153-224 | a reader of the grammar alone, given the tokens of any query and more, comes to the end of that query with that parse tree |
| IntQueryUnique.FactorRead | contrib/intarray/_int_bool.c:153-224 | the same for a factor, whatever follows |
| IntQueryUnique.LastFactor | contrib/intarray/_int_bool.c:168-199 | a query of several factors is a shorter one joined to its last factor, an "&" joined to the last term alone |
| IntQueryUnique.OneParse | contrib/intarray/_int_bool.c:153-224 | a text has at most one parse tree, whether or not it fits the operator stack |
| IntQueryWork.DigitRunIs | contrib/intarray/_int_bool.c:86-90 | reading digits one at a time finds the whole run |
| IntQueryWork.NumeralIs | contrib/intarray/_int_bool.c:63-104 | digits read up to a non-digit are exactly the leading numeral |
| IntQueryWork.NextNumeral | contrib/intarray/_int_bool.c:91-104 | what follows a numeral: an error when it is out of 32-bit range or ends the text inside parentheses, else its value |
| IntQueryWork.WorkState.constructor | contrib/intarray/_int_bool.c:512-516 | a fresh state is at the start of the text with no output |
| IntQueryWork.WorkState.GetToken | contrib/intarray/_int_bool.c:48-131 | the tokenizer with its 16-byte buffer returns the specified token and leaves position, state and count where the specification does; a numeral that fills the buffer is an error |
| IntQueryWork.WorkState.AtOperand | contrib/intarray/_int_bool.c:63-85 | one turn in the operand state keeps "what must be returned is still to be returned", or returns it |
| IntQueryWork.WorkState.AtEndOperand | contrib/intarray/_int_bool.c:86-105 | the same inside a numeral |
| IntQueryWork.WorkState.EndNumeral | contrib/intarray/_int_bool.c:91-104 | the token at the end of a numeral |
| IntQueryWork.WorkState.AtOperator | contrib/intarray/_int_bool.c:106-124 | one turn in the operator state |
| IntQueryWork.WorkState.PushQuery | contrib/intarray/_int_bool.c:136-146 | the node is appended to the output; position and state stay |
| IntQueryWork.WorkState.MakePol | contrib/intarray/_int_bool.c:153-224 | makepol with its stack and linked list computes the specified compilation: same error, or same cursor and same output |
| IntQueryWork.WorkState.Turn | contrib/intarray/_int_bool.c:166-199 | one turn of the loop leaves the final answer of the compilation unchanged |
| IntQueryWork.WorkState.PushOperator | contrib/intarray/_int_bool.c:177-189 | the stack grows by the operator or overflows at 16; a second "or" is emitted instead |
| IntQueryWork.WorkState.PopHigh | contrib/intarray/_int_bool.c:170-199 | emits the trailing "and" and "not" of the stack, topmost first, and leaves the rest |
| IntQueryWork.WorkState.PopAll | contrib/intarray/_int_bool.c:200-222 | emits the whole stack, topmost first |
| IntQueryLink.FindOprnd | contrib/intarray/_int_bool.c:440-490 | on an array that holds a query's notation below a position: only links change, the links describe the tree of that query, the result is the position below it; it fails exactly when a left operand is too far away for 16 bits |
| IntQueryLink.LinkBinary | contrib/intarray/_int_bool.c:472-489 | the binary case: right operand first, then the offset, then the left operand |
| IntQueryLink.LinkRight | contrib/intarray/_int_bool.c:477-486 | the offset written is minus the size of the right operand minus one, or failure when that is below -32768 |
| IntQueryLink.BqarrIn | contrib/intarray/_int_bool.c:496-562 | a text is accepted exactly when it is a sentence within the three limits (stack, item count, link offsets); the items are the notation of its meaning and their links its tree; sentences too deep for the stack give "statement too complex", a syntax error is given only for non-sentences, and "empty query" never |
| IntQueryLink.BuildQuery | contrib/intarray/_int_bool.c:520-562 | from the finished list: acceptance exactly within the item and offset limits, with items and links of the query |
| IntQueryLink.CopyNodes | contrib/intarray/_int_bool.c:537-544 | the newest-first list fills the array from its end, so the array is the list reversed |
| IntQueryUnique.OneTree | contrib/intarray/_int_bool.c:496-562 | so whatever holds of one parse tree of a text holds of all |
| IntQueryLink.RefusedOutright | contrib/intarray/_int_bool.c:153-224 | when makepol fails no sentence within the stack limit has that text, and any sentence beyond the limit makes it fail with "statement too complex" |
| IntQueryExec.LinkedIsWellLinked | contrib/intarray/_int_bool.c:266-295 | the links of an accepted query never lead out of the array |
| IntQueryExec.ExecuteIsHolds | contrib/intarray/_int_bool.c:266-295 | the evaluator over the links computes the truth value of the query, for every condition |
| IntQueryExec.ExecuteLosesNothing | contrib/intarray/_int_bool.c:266-306 | with negations read as true and a condition that errs only towards true, the evaluator never rejects a query that holds |
| IntQueryExec.ExecuteIsLoose | contrib/intarray/_int_bool.c:266-306 | without calcnot the evaluator computes exactly the query with every negation replaced by something that always holds |
| IntQueryExec.CheckArray | contrib/intarray/_int_bool.c:235-255 | binary search finds a value exactly when it is in the sorted array |
| IntQueryExec.BoolOpIsMeaning | contrib/intarray/_int_bool.c:419-438 | the operator gives the truth value of the text the query was read from |
| IntQueryExec.SignLosesNothing | contrib/intarray/_int_bool.c:257-306 | a GiST signature that has the bits of a matching array is never rejected |
| IntQueryExec.SignExact | contrib/intarray/_int_bool.c:257-306 | exactly which signatures are accepted: those on which the query, or its loosened form, holds when a set bit is read as every value that hashes to it |
| IntQueryExec.HashRemainder | contrib/intarray/_int_bool.c:257-264 | the bit of a value is the remainder of its unsigned 32-bit pattern |
| IntQueryExec.GinBoolConsistent | contrib/intarray/_int_bool.c:328-362 | given the index's answers for the extracted operands, the result is the truth value on the row |
| IntQueryExec.MapChecks | contrib/intarray/_int_bool.c:353-357 | each operand position receives the answer for its own value |
| IntQueryExec.RequiredIsPresent | contrib/intarray/_int_bool.c:364-405 | if a query has required values, every array that satisfies it contains a value named in the query, so a search for those values reaches it |
| IntQueryExec.RequiredExactly | contrib/intarray/_int_bool.c:364-405 | a query has required values exactly when the evaluator, negations read as true, rejects the empty array |
| IntQueryExec.RequiredMeans | contrib/intarray/_int_bool.c:364-405 | the same in terms of the query alone |
| IntQueryPrint.ShowReads | contrib/intarray/_int_bool.c:589-595 | the decimal text of every 32-bit integer is one numeral, fits the tokenizer's buffer and reads as that integer |
| IntQueryPrint.PrintLexes | contrib/intarray/_int_bool.c:583-657 | the printed text has the tokens of its parse tree |
| IntQueryPrint.PrintedShape | contrib/intarray/_int_bool.c:583-657 | that parse tree is a sentence and means the query with conjunctions grouped from the left |
| IntQueryPrint.PrintedFits | contrib/intarray/_int_bool.c:583-657 | the printed text always fits the operator stack, however deep the query |
| IntQueryPrint.NormalKeeps | contrib/intarray/_int_bool.c:583-657 | regrouping keeps the truth value everywhere, the number of items and that all links fit |
| IntQueryPrint.PrintNormal | contrib/intarray/_int_bool.c:583-657 | regrouping does not show in the printed text |
| IntQueryPrint.PrintedParses | contrib/intarray/_int_bool.c:583-657 | the three facts above for the whole text |
| IntQueryPrint.Infix.constructor | contrib/intarray/_int_bool.c:660-679 | an empty text at the query's last item |
| IntQueryPrint.Infix.Resize | contrib/intarray/_int_bool.c:576-581 | doubling keeps the text and gives the room asked for |
| IntQueryPrint.Infix.Put | contrib/intarray/_int_bool.c:592-603 | the string lands behind the text, within the buffer |
| IntQueryPrint.Infix.Append | contrib/intarray/_int_bool.c:591-603 | text grows by exactly the string, whatever the buffer size was |
| IntQueryPrint.Infix.Run | contrib/intarray/_int_bool.c:583-657 | infix appends the specified text of the operand that ends at the current item and steps below it |
| IntQueryPrint.Infix.RunNot | contrib/intarray/_int_bool.c:596-619 | the case of "!": parentheses around an operator operand |
| IntQueryPrint.Infix.RunParen | contrib/intarray/_int_bool.c:605-618 | parentheses around an operand |
| IntQueryPrint.Infix.RunBinary | contrib/intarray/_int_bool.c:620-656 | parentheses around "or" except on the outermost level |
| IntQueryPrint.Infix.RunOperands | contrib/intarray/_int_bool.c:633-648 | the right operand, printed first into a buffer of its own, comes behind the left one |
| IntQueryPrint.BqarrOut | contrib/intarray/_int_bool.c:660-679 | the output function gives the printed text |
| IntQueryPrint.PrintIsLaid | contrib/intarray/_int_bool.c:586-656 | the printed text is its tokens with one blank between them, except that "!" stands close to what it negates |
| IntQueryPrint.SixteenNots | contrib/intarray/_int_bool.c:150-186 | sixteen "!" in a row fit the operator stack and seventeen do not |
| IntQueryPrint.RoundTrip | contrib/intarray/_int_bool.c:496-679 | for every accepted text: what is printed is the text of its query; it is accepted again, its query is the old one with conjunctions grouped from the left and has the same value on every array, and printing that gives the same text |
| IntQueryPrint.SameValue | contrib/intarray/_int_bool.c:419-438 | evaluated over its links, the query read back has the value of the first on every array |
| HStoreCore.KeyCmpFlip | contrib/hstore/hstore_io.c:289-311 | the key order (shorter first, then bytes) is antisymmetric |
| HStoreCore.KeyLessTrans | contrib/hstore/hstore_io.c:289-311 | and transitive |
| HStoreCore.KeyLessIs | contrib/hstore/hstore_io.c:289-311 | which of two keys comes first: the shorter, or of equally long ones the one with the smaller byte at the first difference |
| HStoreCore.CanonicalLookup | contrib/hstore/hstore_io.c:319-360 | in a list with strictly increasing keys every pair is what the mapping gives for its key |
| HStoreCore.CanonicalUnique | contrib/hstore/hstore_io.c:319-360 | a mapping has one such list, so operations specified on mappings determine the stored bytes |
| HStoreCore.MakeEntry | contrib/hstore/hstore.h:99-106 | an entry word keeps its position and null bit apart |
| HStoreCore.SetFirst | contrib/hstore/hstore.h:129-140 | marking an entry word as first changes neither position nor null bit |
| HStoreCore.BytesAt | contrib/hstore/hstore.h:72-84 | where the key and value of pair i lie in the string area |
| HStoreCore.EntryAt | contrib/hstore/hstore.h:28-34 | the end positions, null and first bits of entry i |
| HStoreCore.ReadBack | contrib/hstore/hstore.h:74-84 | reading a packed datum through end positions gives every key, value and null of the list |
| HStoreCore.ReadStored | contrib/hstore/hstore.h:74-84 | the same for a datum with bytes behind the last value |
| HStoreCore.LastEnd | contrib/hstore/hstore.h:143-147 | the last end position is the number of string bytes in use |
| HStoreCore.ViewUnique | contrib/hstore/hstore.h:74-84 | a datum stores one list of pairs |
| HStoreCore.PackStores | contrib/hstore/hstore.h:99-140 | packing a list with increasing keys, within the allocation limit, gives a well-formed datum of exact size that stores that list |
| HStoreBuild.Builder.constructor | contrib/hstore/hstore_io.c:393-402 | room for the entries and bytes asked for, nothing written |
| HStoreBuild.Builder.CopyItem | contrib/hstore/hstore.h:99-106 | the block holds one more pair: bytes behind the reserved entries, entry words with the new end positions |
| HStoreBuild.Builder.AddItem | contrib/hstore/hstore.h:112-126 | the same from separate key and value |
| HStoreBuild.Builder.PutBytes | contrib/hstore/hstore.h:99-106 | the bytes are appended and nothing else in the block changes |
| HStoreBuild.Builder.PutEntry | contrib/hstore/hstore.h:99-106 | the entry is appended and nothing else in the block changes |
| HStoreBuild.Builder.Finalize | contrib/hstore/hstore.h:129-140 | after marking the first entry and moving the bytes down, the block is the packed form of exactly the pairs added |
| HStoreBuild.Builder.Freeze | contrib/hstore/hstore.h:129-140 | entries and bytes of the result are those of the block |
| HStorePairs.PairOrder | contrib/hstore/hstore_io.c:289-311 | comparePairs is a total preorder, as qsort needs |
| HStorePairs.CompareTrans | contrib/hstore/hstore_io.c:289-311 | it is transitive, the tie-break on needfree included |
| HStorePairs.UniquePairs | contrib/hstore/hstore_io.c:319-360 | the survivors at the front of the array have strictly increasing keys, exactly the keys of the input, and are pairs of the input; of pairs with one key one that need not be freed survives if there is one; the byte count is theirs |
| HStorePairs.PrefersDrop | contrib/hstore/hstore_io.c:290-311 | a duplicate that is dropped never leaves a survivor that has to be freed in place of one that has not |
| HStorePairs.Compact | contrib/hstore/hstore_io.c:334-359 | the same for the compaction loop on a sorted array |
| HStorePairs.CompactDrop | contrib/hstore/hstore_io.c:338-346 | dropping a pair with the key of the last survivor keeps the loop's invariant |
| HStorePairs.CompactKeep | contrib/hstore/hstore_io.c:347-353 | keeping a pair with a new key keeps it |
| HStorePairs.SamePairs | contrib/hstore/hstore_io.c:319-360 | deduplicating a rearrangement is deduplicating the original |
| HStorePairs.HstorePairs | contrib/hstore/hstore_io.c:383-410 | the result is the packed form of the pairs, with size as computed, unless that is above the allocation limit |
| HStoreSearch.FindKey | contrib/hstore/hstore_op.c:36-71 | the index of the key if and only if the mapping has it; the returned bound is a lower bound for every greater key, so a carried bound never changes an answer |
| HStoreSearch.NextBelow | contrib/hstore/hstore_op.c:36-71 | why an ascending sequence of searches may carry the bound on |
| HStoreSearch.ArrayToPairs | contrib/hstore/hstore_op.c:73-126 | the distinct non-null array elements in increasing order, or refusal exactly above the size limit |
| HStoreSearch.Exists | contrib/hstore/hstore_op.c:151-160 | true exactly for keys of the mapping |
| HStoreSearch.FetchVal | contrib/hstore/hstore_op.c:130-147 | the mapping's value; null for a null value or an absent key |
| HStoreSearch.ExistsAny | contrib/hstore/hstore_op.c:164-194 | true exactly when some array element is a key |
| HStoreSearch.ExistsAll | contrib/hstore/hstore_op.c:198-228 | true exactly when all are |
| HStoreSearch.Contains | contrib/hstore/hstore_op.c:967-1011 | true exactly when the template's mapping is part of the value's, nulls equal only to nulls |
| HStoreSearch.SubMap | contrib/hstore/hstore_op.c:967-1011 | checking pair by pair is checking the mappings |
| HStoreOps.CopyEntry | contrib/hstore/hstore_op.c:247-290 | the pair of entry i is appended to the datum under construction |
| HStoreOps.Delete | contrib/hstore/hstore_op.c:247-290 | the mapping without the key, in a well-formed datum of exact size |
| HStoreOps.FilterMap | contrib/hstore/hstore_op.c:247-469 | keeping some pairs of a list restricts its mapping |
| HStoreOps.FilterCanonical | contrib/hstore/hstore_op.c:247-469 | and keeps the order |
| HStoreOps.FixSize | contrib/hstore/hstore.h:143-147 | trimming keeps the mapping and makes the size exact |
| HStoreOps.DeleteArray | contrib/hstore/hstore_op.c:294-369 | the mapping without the array's keys, or refusal exactly above the size limit |
| HStoreOps.DeleteKeys | contrib/hstore/hstore_op.c:312-368 | the same from sorted keys |
| HStoreOps.KeysMerge | contrib/hstore/hstore_op.c:334-368 | the merge keeps exactly the pairs whose key is not listed |
| HStoreOps.Advance | contrib/hstore/hstore_op.c:334-364 | one turn of a deleting merge keeps the two lists in step and copies the pairs to keep |
| HStoreOps.DeleteHstore | contrib/hstore/hstore_op.c:373-469 | the mapping without the pairs the second mapping also has |
| HStoreOps.DeletePairs | contrib/hstore/hstore_op.c:411-468 | the same when both have entries |
| HStoreOps.PairsMerge | contrib/hstore/hstore_op.c:417-468 | the merge keeps exactly the pairs the second mapping lacks |
| HStoreOps.AdvancePair | contrib/hstore/hstore_op.c:417-464 | one turn of it |
| HStoreOps.Compare | contrib/hstore/hstore_op.c:421-447 | the current keys' order, and whether the values are equal, nulls included |
| HStoreOps.Concat | contrib/hstore/hstore_op.c:473-567 | the second mapping laid over the first, well formed and of exact size; refusal exactly when both together exceed the allocation limit |
| HStoreOps.ConcatMerge | contrib/hstore/hstore_op.c:513-566 | the same for the merge |
| HStoreOps.JoinTurn | contrib/hstore/hstore_op.c:525-562 | one turn takes the smaller key, and the second's value on equal keys |
| HStoreOps.TakeFirst | contrib/hstore/hstore_op.c:546-561 | taking the smaller key from the first keeps the merge invariant: output ordered and equal to the override of what was read |
| HStoreOps.TakeSecond | contrib/hstore/hstore_op.c:546-561 | the same from the second |
| HStoreOps.TakeEqual | contrib/hstore/hstore_op.c:546-561 | the same on equal keys |
| HStoreOps.SliceToHstore | contrib/hstore/hstore_op.c:634-692 | the mapping restricted to the array's keys; refusal exactly above the size limit of the array |
| HStoreOps.SlicePairs | contrib/hstore/hstore_op.c:656-682 | the pairs found, in order, and their byte count |
| HStoreOps.SliceFits | contrib/hstore/hstore_op.c:657-689 | a slice never exceeds the allocation limit |
| HStoreOrder.Cmp | contrib/hstore/hstore_op.c:1087-1164 | the loops compute the order of the data |
| HStoreOrder.OrderIsBefore | contrib/hstore/hstore_op.c:1087-1164 | below zero exactly when the first comes before: empty before all others, then the smaller byte at the first difference of the concatenated bytes, a proper prefix first, then fewer pairs, then at the first differing entry word the smaller end position, and not null before null |
| HStoreOrder.BeforeTotal | contrib/hstore/hstore_op.c:1087-1164 | if neither of two data comes before the other the comparison is zero |
| HStoreOrder.CmpEntries | contrib/hstore/hstore_op.c:1131-1148 | the loop over entry words compares them lexicographically |
| HStoreOrder.CmpWords | contrib/hstore/hstore_op.c:1140-1147 | how two different words are ordered |
| HStoreOrder.LexStrings | contrib/hstore/hstore_op.c:1117-1124 | comparing the common length and then the lengths is lexicographic order |
| HStoreOrder.TotalOrder | contrib/hstore/hstore_op.c:1087-1164 | reflexive, antisymmetric and transitive on all well-formed data |
| HStoreOrder.ZeroIsSameMap | contrib/hstore/hstore_op.c:1087-1164 | zero exactly when the two denote the same mapping |
| HStoreOrder.SameRank | contrib/hstore/hstore_op.c:1087-1164 | zero only for equal entries and equal used bytes |
| HStoreOrder.EqualHashEqual | contrib/hstore/hstore_op.c:1235-1256 | for data of exact size, equal in the order means equal in every byte that is hashed |
| HStoreUpgrade.OldBytes | contrib/hstore/hstore_compat.c:99-106 | the string area of a contiguous old value is that of its pairs, in place |
| HStoreUpgrade.ConvertedIs | contrib/hstore/hstore_compat.c:325-338 | each converted entry is the new-format entry of that pair |
| HStoreUpgrade.PackValid | contrib/hstore/hstore_compat.c:118-162 | packed pairs with non-decreasing key lengths pass the new-format test exactly |
| HStoreUpgrade.ConvertDone | contrib/hstore/hstore_compat.c:316-344 | converted and marked, the value is the packed form of the old pairs |
| HStoreUpgrade.ConvertedMeaning | contrib/hstore/hstore_compat.c:316-344 | if the old keys were in order the result is well formed and denotes the old mapping |
| HStoreUpgrade.OldTakenAsNew | contrib/hstore/hstore_compat.c:250-256 | a short valid old value is taken as new exactly when its first value is null and its unused length field is 32768 or more |
| HStoreUpgrade.NullMisread | contrib/hstore/hstore_compat.c:250-256 | an old value that is taken as new: it denoted a null under one key and then denotes an empty string |
| HStoreUpgrade.MisreadOverruns | contrib/hstore/hstore_compat.c:250-256 | an old value that is taken as new and gets a length beyond its end |
| HStoreUpgrade.Value.ValidNewFormat | contrib/hstore/hstore_compat.c:118-162 | the three-way verdict: valid exactly, valid with slack, invalid, as specified by order, key lengths and size |
| HStoreFormats.NewMeans | contrib/hstore/hstore_compat.c:118-162 | which values pass, nulls apart: those whose entries are the packed form of pairs with key lengths that never decrease, with their bytes in front; with no bytes left over the verdict is exact |
| HStoreUpgrade.Value.CheckOrdered | contrib/hstore/hstore_compat.c:139-146 | end positions never decrease and only the first entry is marked |
| HStoreUpgrade.Value.CheckKeys | contrib/hstore/hstore_compat.c:148-156 | key lengths never decrease and keys are not null |
| HStoreUpgrade.Value.ValidOldFormat | contrib/hstore/hstore_compat.c:170-229 | the verdict for the old format |
| HStoreFormats.OldMeans | contrib/hstore/hstore_compat.c:170-229 | which values pass: those whose entries give lengths, null and position of such pairs one behind the other; with no bytes left over the verdict is exact |
| HStoreFormats.OldFields | contrib/hstore/hstore_compat.c:99-106 | where the four fields of an old entry lie in its two words |
| HStoreUpgrade.Value.CheckOldKeys | contrib/hstore/hstore_compat.c:198-204 | old key lengths never decrease |
| HStoreUpgrade.Value.CheckContiguous | contrib/hstore/hstore_compat.c:206-218 | entries lie one behind the other; the running position, a 32-bit integer, wraps only behind the last entry |
| HStoreUpgrade.SizeUnsigned | contrib/hstore/hstore_compat.c:206-222 | the size computed from a position that has wrapped, compared as an unsigned number, is the true size |
| HStoreUpgrade.Value.Mark | contrib/hstore/hstore_compat.c:253-255 | flag and count set, size trimmed, entries untouched |
| HStoreUpgrade.Value.Upgrade | contrib/hstore/hstore_compat.c:235-347 | which of the five outcomes applies; a kept or refused value is unchanged, a marked one keeps its entries, one that is taken as new and claims more bytes than it has is marked with that length, a converted one is the packed form of the pairs the old value denoted and passes the new test exactly |
| HStoreUpgrade.Value.Convert | contrib/hstore/hstore_compat.c:316-344 | the conversion in place gives that packed form |
| HStoreUpgrade.Value.ConvertRows | contrib/hstore/hstore_compat.c:325-338 | every row is converted in place, none twice |
| HStoreUpgrade.Value.ConvertRow | contrib/hstore/hstore_compat.c:327-337 | positions from old offset and lengths; a null has length zero |
| HStoreText.ReadQuoted | contrib/hstore/hstore_io.c:60-175 | a quoted and escaped word, followed by anything, reads as the word and stops behind the closing quote |
| HStoreText.ReadNull | contrib/hstore/hstore_io.c:60-175 | the bare word NULL is read up to the comma or end |
| HStoreText.ReadValue | contrib/hstore/hstore_io.c:184-287 | a printed value reads back as it was, null or not: a quoted "NULL" stays a string |
| HStoreText.ReadPair | contrib/hstore/hstore_io.c:184-287 | a printed pair reads back |
| HStoreText.ParseFromPrinted | contrib/hstore/hstore_io.c:184-287 | the printed pairs from any index on read back |
| HStoreText.ParsePrinted | contrib/hstore/hstore_io.c:184-287 | the whole printed text reads back as the list, in order |
| HStoreGrammar.WordReads | contrib/hstore/hstore_io.c:60-175 | every word of the grammar (quoted, or bare with its follow condition, escapes anywhere) reads as the string it stands for |
| HStoreGrammar.WordBack | contrib/hstore/hstore_io.c:60-175 | everything get_val reads is blanks and such a word |
| HStoreGrammar.NoWordBack | contrib/hstore/hstore_io.c:60-175 | "no word" is reported only for blanks |
| HStoreGrammar.DocParses | contrib/hstore/hstore_io.c:184-287 | every text of the grammar is accepted with its meaning, trailing comma included |
| HStoreGrammar.DocBack | contrib/hstore/hstore_io.c:184-287 | every accepted text is a text of the grammar with the meaning it was given |
| HStoreGrammar.ParseExact | contrib/hstore/hstore_io.c:184-287 | the reader returns a list of pairs for a text if and only if the text is in the grammar with that meaning |
| HStoreTextIO.BufEnough | contrib/hstore/hstore_io.c:1187-1197 | the reserve of hstore_out is at least two more than the text |
| HStoreTextIO.BufSmall | contrib/hstore/hstore_io.c:1187-1195 | an upper bound on the reserve |
| HStoreTextIO.BufInt | contrib/hstore/hstore_io.c:1187-1195 | for every well-formed datum the reserve stays below 2^31 |
| HStoreTextIO.Cpw | contrib/hstore/hstore_io.c:1147-1159 | the escaped word lands behind what was written |
| HStoreTextIO.WriteValue | contrib/hstore/hstore_io.c:1206-1218 | a quoted value, or NULL |
| HStoreTextIO.WritePair | contrib/hstore/hstore_io.c:1199-1225 | one turn: what is written and what is still to come make up the same text |
| HStoreTextIO.WritePairs | contrib/hstore/hstore_io.c:1199-1226 | the loop writes the printed text within the buffer |
| HStoreTextIO.BufLen | contrib/hstore/hstore_io.c:1187-1195 | the reserve computed by the loop |
| HStoreTextIO.BufTotal | contrib/hstore/hstore_io.c:1187-1195 | the reserve in closed form: twice the bytes, eight for each pair and two more for each null |
| HStoreTextIO.HstoreOut | contrib/hstore/hstore_io.c:1162-1229 | the printed text, unless the reserve cannot be allocated |
| HStoreText.PrintOne | contrib/hstore/hstore_io.c:1199-1225 | a pair as it is printed |
| HStoreText.PrintPush | contrib/hstore/hstore_io.c:1199-1225 | pairs are printed with a comma and a blank between them |
| HStoreText.QuoteAppend | contrib/hstore/hstore_io.c:1148-1160 | quotes and backslashes get a backslash, other characters stand for themselves |
| HStoreTextIO.HSParser.constructor | contrib/hstore/hstore_io.c:190-194 | at the start of the text, with room for 16 pairs |
| HStoreTextIO.HSParser.Resize | contrib/hstore/hstore_io.c:41-50 | the word is kept and there is room for a character and the terminator |
| HStoreTextIO.HSParser.Store | contrib/hstore/hstore_io.c:60-175 | the word grows by the character |
| HStoreTextIO.HSParser.ReadVal | contrib/hstore/hstore_io.c:60-175 | get_val on its growing buffer returns what the specification reads at the position, and stops where it stops |
| HStoreTextIO.HSParser.Apply | contrib/hstore/hstore_io.c:69-174 | one turn that moves on keeps the final answer |
| HStoreTextIO.HSParser.Leave | contrib/hstore/hstore_io.c:69-174 | a turn that returns gives it |
| HStoreTextIO.HSParser.Grow | contrib/hstore/hstore_io.c:202-206 | there is room for one more pair and the pairs are kept |
| HStoreTextIO.HSParser.KeyTurn | contrib/hstore/hstore_io.c:198-212 | the state that reads a key keeps the final answer of the parse, or gives it |
| HStoreTextIO.HSParser.ValTurn | contrib/hstore/hstore_io.c:247-264 | the same for a value, with the case-insensitive test for a bare null |
| HStoreTextIO.HSParser.CharTurn | contrib/hstore/hstore_io.c:213-281 | the same for the states that look at one character |
| HStoreTextIO.HSParser.ParsePairs | contrib/hstore/hstore_io.c:184-287 | the parser's arrays end up holding the specified pairs, or it reports the specified error |
| HStoreTextIO.HstoreIn | contrib/hstore/hstore_io.c:414-430 | the answer is the parse error, or the packed form of the deduplicated pairs, or "too large" |
| HStoreTextIO.PrintNoNul | contrib/hstore/hstore_io.c:1162-1229 | the printed text is a C string exactly when no key or value has a NUL |
| HStoreTextIO.NothingToDrop | contrib/hstore/hstore_io.c:319-360 | a list with increasing keys is its own deduplication |
| HStoreTextIO.RoundTrip | contrib/hstore/hstore_io.c:414-430 | reading the printed text of any well-formed datum can only give the packed form of its pairs; if its size is exact, that datum byte for byte |
| HStoreTextIO.PrintAndRead | contrib/hstore/hstore_io.c:1162-1229 | output and then input, as one run: unless the text cannot be allocated that packed form comes back |
| HStoreIndex.Extract | contrib/hstore/hstore_gin.c:43-77 | the items of a datum: a key item and a value or null item for each pair |
| HStoreIndex.KeyItemIn | contrib/hstore/hstore_gin.c:27-77 | a key item is among them exactly when the mapping has the key: no value item can be mistaken for it |
| HStoreIndex.ExtractQuery | contrib/hstore/hstore_gin.c:81-148 | the items to look for under each of the four operators, and when every row must be visited |
| HStoreIndex.ExtractKeys | contrib/hstore/hstore_gin.c:127-136 | key items of the non-null array elements |
| HStoreIndex.GinConsistent | contrib/hstore/hstore_gin.c:152-212 | contains and exists-all demand every item, the others none beyond the match; only contains asks for a recheck |
| HStoreIndex.GinExact | contrib/hstore/hstore_gin.c:43-212 | exists, exists-any and exists-all return exactly the matching rows, which is why they need no recheck |
| HStoreIndex.GinLosesNothing | contrib/hstore/hstore_gin.c:43-212 | contains returns every matching row |
| HStoreIndex.GinContains | contrib/hstore/hstore_gin.c:43-212 | what contains returns before the recheck: exactly the rows with every key of the template and every value of it under some key |
| HStoreIndex.ValItemIn | contrib/hstore/hstore_gin.c:27-60 | a value item, or the null item, is among the items exactly when the mapping has that value under some key |
| HStoreGist.Compress | contrib/hstore/hstore_gist.c:114-145 | a leaf signature has exactly the bits its keys and values hash to |
| HStoreGist.SetBits | contrib/hstore/hstore_gist.c:125-138 | one turn adds the bits of one pair |
| HStoreGist.HashRemainder | contrib/hstore/hstore_gist.c:121-138 | the bit of a word is the remainder of its checksum |
| HStoreGist.CompressKey | contrib/hstore/hstore_gist.c:146-167 | an all-ones key becomes the mark; no bit changes |
| HStoreGist.UnionKey | contrib/hstore/hstore_gist.c:258-269 | bits are or-ed in, or the mark is reported with the base untouched |
| HStoreGist.Union | contrib/hstore/hstore_gist.c:271-302 | a bit is in the union exactly when some key has it |
| HStoreGist.SizeBitVec | contrib/hstore/hstore_gist.c:214-226 | the number of ones |
| HStoreGist.HemDistSign | contrib/hstore/hstore_gist.c:228-240 | the number of differing bits |
| HStoreGist.Distance | contrib/hstore/hstore_gist.c:242-256 | the same for keys, the mark read as all ones |
| HStoreGist.HemDistCounts | contrib/hstore/hstore_gist.c:242-256 | the shortcuts for the mark count what a bit by bit comparison would |
| HStoreGist.Seeds | contrib/hstore/hstore_gist.c:363-387 | with two entries those two; otherwise the first pair, in order of offsets, at the greatest distance among all entries but the last |
| HStoreGist.SeedRow | contrib/hstore/hstore_gist.c:365-375 | one row of that search: no pair so far is further apart, and no earlier pair as far |
| HStoreGist.Outdone | contrib/hstore/hstore_gist.c:363-377 | a pair further apart than all before it takes their place |
| HStoreGist.CostVector | contrib/hstore/hstore_gist.c:420-428 | for every offset, how much closer its entry is to one seed than to the other |
| HStoreGist.CostMeans | contrib/hstore/hstore_gist.c:413-428 | that is the difference of the numbers of bits in which it differs from the two seeds |
| HStoreGist.AddTo | contrib/hstore/hstore_gist.c:453-484 | a side's key gains exactly the entry's bits, and the mark for all bits stays only if it was there |
| HStoreGist.Extend | contrib/hstore/hstore_gist.c:453-484 | adding an entry keeps the side's invariant |
| HStoreGist.DealOne | contrib/hstore/hstore_gist.c:436-484 | one turn: a seed to its own side, another entry to the side that is closer after the bias for balance; the side's key grows by it |
| HStoreGist.ChoiceMeans | contrib/hstore/hstore_gist.c:436-484 | the choice in whole numbers: left exactly when ten thousand times the excess of differing bits there is below minus the cube of the excess of entries there |
| HStoreGist.Distribute | contrib/hstore/hstore_gist.c:431-490 | the split is the one those turns give in the order of cost; every entry lands on exactly one side, both are non-empty, each key is the union of its side |
| HStoreGist.PickSplit | contrib/hstore/hstore_gist.c:331-493 | the split is that of the farthest seeds and of entries in ascending order of cost, for any entries; it is complete, with two non-empty sides keyed by their unions |
| HStoreGist.InCostOrder | contrib/hstore/hstore_gist.c:420-430 | sorting the costs puts the offsets in ascending order of cost |
| HStoreGist.Consistent | contrib/hstore/hstore_gist.c:496-602 | the test on a signature, as a condition on bits for each operator |
| HStoreGist.TestMeans | contrib/hstore/hstore_gist.c:496-602 | exists asks for the bit of the key, exists-all for all keys, exists-any for one, the mark passing everything, and contains for exactly the signatures that cover the template |
| HStoreGist.ConsistentContains | contrib/hstore/hstore_gist.c:515-542 | contains passes exactly when every bit the template hashes to is set |
| HStoreGist.RowMayMatch | contrib/hstore/hstore_gist.c:496-602 | a key above a matching row passes the test |
| HStoreGist.SearchExact | contrib/hstore/hstore_gist.c:108-602 | searching any tree whose keys cover what is below, with the recheck, returns exactly the matching rows |
| HStoreGist.SplitSound | contrib/hstore/hstore_gist.c:331-493 | both pages of a split are sound |
| HStoreGist.SplitKeeps | contrib/hstore/hstore_gist.c:331-493 | and no entry is lost |
| HStoreGist.InsertSound | contrib/hstore/hstore_gist.c:258-302 | widening a page's key by union keeps a tree sound |
| HStoreGist.MakeRow | contrib/hstore/hstore_gist.c:109-145 | the key compress makes for a row has exactly the bits the row asks for |
| HStoreGist.MakePage | contrib/hstore/hstore_gist.c:272-302 | the key union makes for a page has exactly the bits of its entries |
| HStoreGist.SplitPage | contrib/hstore/hstore_gist.c:331-493 | so have the keys of the two pages of a split, which hold all entries between them |
| HStoreGist.InsertBuilt | contrib/hstore/hstore_gist.c:258-302 | and the key of a page that gains an entry |
| HStoreGist.BuiltBits | contrib/hstore/hstore_gist.c:108-302 | so, however a tree was built, its key has exactly the bits its rows ask for |
| HStoreGist.BuiltSearch | contrib/hstore/hstore_gist.c:108-602 | and a search of it, with the recheck, returns exactly the matching rows |
| VarKey.NodeCpLen | contrib/btree_gist/btree_utils_var.c:124-174 | the loop finds the length of the common prefix of both bounds |
| VarKey.Union | contrib/btree_gist/btree_utils_var.c:334-370 | union computes the hull of the keys, cut at the common prefix and one more byte |
| VarKey.Widen | contrib/btree_gist/btree_utils_var.c:245-290 | widening ordered bounds keeps every value they admit |
| VarKey.HullWide | contrib/btree_gist/btree_utils_var.c:245-290 | the accumulated key is ordered and no narrower than any input |
| VarKey.TruncateAdmits | contrib/btree_gist/btree_utils_var.c:216-241 | cutting beyond the common prefix and one byte loses no admitted value, although upper bounds shrink |
| VarKey.UnionAdmits | contrib/btree_gist/btree_utils_var.c:334-370 | a union admits whatever one of its inputs admits, so nothing is lost through any number of levels |
| VarKey.UnionShape | contrib/btree_gist/btree_utils_var.c:334-370 | unions are ordered and cut |
| VarKey.LeafExact | contrib/btree_gist/btree_utils_var.c:566-625 | on a leaf key the test decides the operator exactly, for all six strategies |
| VarKey.SafeAccepts | contrib/btree_gist/btree_utils_var.c:566-625 | a key that is safe for a value is not rejected by any search that value satisfies |
| VarKey.SafeExactly | contrib/btree_gist/btree_utils_var.c:566-625 | an internal key is never wrongly rejected, for any strategy and query, exactly when it is safe for the value: not below the lower bound, not above the upper one unless it extends a bound, and equal to them when both are the same |
| VarKey.TestExactly | contrib/btree_gist/btree_utils_var.c:566-625 | exactly when an internal key is searched, for each of the six strategies |
| VarKey.AdmitsSafe | contrib/btree_gist/btree_utils_var.c:180-209 | a cut key is safe for every value it admits |
| VarKey.UnionBounds | contrib/btree_gist/btree_utils_var.c:334-370 | a page keyed by union over bounded trees is bounded |
| VarKey.UnionKeyedBounded | contrib/btree_gist/btree_utils_var.c:334-370 | every tree whose keys come from repeated union is bounded |
| VarKey.InsertBounded | contrib/btree_gist/btree_utils_var.c:245-290 | an insertion that widens by union keeps the bounds |
| VarKey.SearchExact | contrib/btree_gist/btree_utils_var.c:566-625 | for all six strategies a search of a bounded tree finds exactly the values that satisfy it |
| VarSplit.VsrtOrder | contrib/btree_gist/btree_utils_var.c:455-468 | the sort comparison is a total preorder |
| VarSplit.VsrtMeans | contrib/btree_gist/btree_utils_var.c:455-468 | the lower bounds decide, and between equal ones the upper bounds |
| VarSplit.PickSplit | contrib/btree_gist/btree_utils_var.c:470-560 | the entries are sorted and divided in the middle, each offset once; each half's key is its hull cut at the larger of the two common prefixes |
| VarSplit.Gather | contrib/btree_gist/btree_utils_var.c:526-540 | one half: its hull and its offsets |
| VarSplit.CutSafe | contrib/btree_gist/btree_utils_var.c:545-556 | a cut key stays safe for every value between the uncut bounds |
| VarSplit.LeafSplitSafe | contrib/btree_gist/btree_utils_var.c:545-556 | a split of leaf entries is safe for every value |
| VarSplit.NoOvershootSafe | contrib/btree_gist/btree_utils_var.c:545-556 | an entry of any shape that is not overshot loses no value it can stand for |
| VarSplit.OvershootLoses | contrib/btree_gist/btree_utils_var.c:545-556 | an entry that is outgrown has a value the new key does not stand for, and if it is overshot the new key is not safe for that value |
| VarSplit.SplitExact | contrib/btree_gist/btree_utils_var.c:545-556 | for entries of any shape: a split key is safe for all values an entry can stand for (within its bounds, or extending an upper bound that may have been cut) exactly when it does not overshoot: the entry's upper bound may have been cut and is a proper prefix of the new one, what follows is not all 0xFF, and the new lower bound is no prefix of it |
| VarSplit.SplitAdmits | contrib/btree_gist/btree_utils_var.c:545-556 | the same for all values an entry admits, with its upper bound cut as a union would |
| VarSplit.AdmitsIsNear | contrib/btree_gist/btree_utils_var.c:216-241 | what a key admits is what it can stand for once cut as a union would, so for union keys the two conditions are one |
| VarSplit.NearExact | contrib/btree_gist/btree_utils_var.c:545-556 | a split key stands for all values an entry stands for exactly when it does not outgrow the entry |
| VarSplit.UnionNear | contrib/btree_gist/btree_utils_var.c:334-370 | the key of a union stands for every value below it |
| VarSplit.SplitNear | contrib/btree_gist/btree_utils_var.c:545-556 | so does the key of a split of leaves, however uneven, or of entries it does not outgrow |
| VarSplit.SplitBounds | contrib/btree_gist/btree_utils_var.c:545-556 | a page from a split that overshoots none of its entries bounds everything below it, whatever the entries came from |
| VarSplit.BuiltBounded | contrib/btree_gist/btree_utils_var.c:334-370 | so does every page of a tree built from unions and such splits, however deep |
| VarSplit.BuiltExact | contrib/btree_gist/btree_utils_var.c:566-625 | and a search of such a tree finds exactly the values that satisfy it, for all six strategies |
| VarLoss.SplitLoses | contrib/btree_gist/btree_utils_var.c:545-556 | four pages keyed by the union of two leaves each: any split of their entries puts the first two in the left half, and a search of it for a value stored in the first page finds nothing |
| VarLoss.LossySplit | contrib/btree_gist/btree_utils_var.c:470-560 | the split itself, run on those entries, gives that half |
| VarLoss.PageKeys | contrib/btree_gist/btree_utils_var.c:334-370 | the four entries are the unions of the leaves below them |
| VarLoss.InStrictOrder | contrib/btree_gist/btree_utils_var.c:455-468 | they are in strict order, so sorting gives one arrangement only |
| BloomSign.ZeroOnlyFromZero | contrib/bloom/blutils.c:217-242 | the generator reaches zero only from zero |
| BloomSign.NeverZero | contrib/bloom/blutils.c:217-242 | after any number of steps the state is in range, and zero only if it began so |
| BloomSign.StateIs | contrib/bloom/blutils.c:217-242 | the states in closed form: after n steps the n-th power of 16807 times the first state, modulo 2^31 - 1 |
| BloomSign.SeedStates | contrib/bloom/blutils.c:244-250 | which seeds give the state zero: 0xffffffff and 0x80000001 and no other |
| BloomSign.Generator.constructor | contrib/bloom/blutils.c:215 | the initial state |
| BloomSign.Generator.MyRand | contrib/bloom/blutils.c:217-242 | Schrage's method on 32-bit integers computes 16807 x modulo 2^31 - 1 |
| BloomSign.Generator.MySrand | contrib/bloom/blutils.c:244-250 | the state for a seed, signed remainder included |
| BloomSign.SeedStateIs | contrib/bloom/blutils.c:244-250 | that state by the sign of the 32-bit pattern, as a plain remainder |
| BloomSign.Schrage | contrib/bloom/blutils.c:217-242 | why no intermediate value overflows |
| BloomSign.SetBitSets | contrib/bloom/blutils.c:31-34 | setting a bit sets that bit and no other |
| BloomSign.MaskBits | contrib/bloom/blutils.c:31-34 | the same inside one word |
| BloomSign.PutBit | contrib/bloom/blutils.c:31-34 | the array word that changes is the one of the bit |
| BloomSign.SignValue | contrib/bloom/blutils.c:255-283 | the signature gains the bits chosen by the generator from the seed that the column's number and hash give |
| BloomSign.SeedIs | contrib/bloom/blutils.c:262-275 | the seed spelled out: the hash exclusive-or 16807 (attno + 1) - 1 |
| BloomSign.ColumnsDiffer | contrib/bloom/blutils.c:262-275 | one hash gives different columns different seeds |
| BloomSign.HashesDiffer | contrib/bloom/blutils.c:262-275 | in one column different hashes have different seeds |
| BloomSign.HashFor | contrib/bloom/blutils.c:262-275 | and every seed comes from some hash |
| BloomSign.BitNoIs | contrib/bloom/blutils.c:277-282 | the bit of each turn in closed form |
| Bitwise.XorBit | contrib/bloom/blutils.c:275 | a bit of the exclusive or is set exactly when the bits of the arguments differ |
| BloomSign.AddBits | contrib/bloom/blutils.c:277-282 | the same for the loop from any generator state |
| BloomSign.SignBits | contrib/bloom/blutils.c:277-282 | the loop sets the bits its turns choose and no other |
| BloomSign.ColumnBits | contrib/bloom/blutils.c:255-283 | a column sets exactly its own bits, when its seed is neither of the two bad ones |
| BloomSign.BitsInRange | contrib/bloom/blutils.c:255-283 | every bit chosen lies within the signature exactly when the seed is not one of two values |
| BloomSign.BadHash | contrib/bloom/blutils.c:255-283 | every column has a hash that leads to a bad seed, and then no bit lies within the signature |
| BloomSign.SignIsOr | contrib/bloom/blutils.c:255-283 | signing is or-ing in bits that do not depend on the signature so far |
| BloomSign.ColumnAdds | contrib/bloom/blutils.c:255-283 | so a column's bits depend on its number and hash alone |
| BloomSign.FormSign | contrib/bloom/blutils.c:288-307 | a row's signature; null columns add nothing |
| BloomSign.ScanSign | contrib/bloom/blscan.c:109-135 | a scan's signature, or nothing when a key is null |
| BloomSign.RowCovers | contrib/bloom/blutils.c:288-307 | a row's signature has the bits of each of its columns |
| BloomSign.RowBits | contrib/bloom/blutils.c:288-307 | and no other bits |
| BloomSign.KeysBits | contrib/bloom/blscan.c:109-135 | a scan's signature has exactly the bits of its keys |
| BloomSign.AgreeingRowPasses | contrib/bloom/blscan.c:166-181 | no false negatives: a row that agrees with the scan keys passes, whatever the hashes |
| BloomSign.Test | contrib/bloom/blscan.c:166-174 | the word loop decides coverage |
| BloomSign.CoversBits | contrib/bloom/blscan.c:166-174 | that is, whether every bit of the scan is set |
| BloomPage.FitsWithin | contrib/bloom/bloom.h:151-154 | a tuple fits exactly below the page's capacity |
| BloomPage.KeptAndRemoved | contrib/bloom/blvacuum.c:33-161 | kept and removed tuples together are all tuples |
| BloomPage.KeptIs | contrib/bloom/blvacuum.c:33-161 | kept exactly the tuples that are not dead |
| BloomPage.KeptJoin | contrib/bloom/blvacuum.c:81-107 | in their order |
| BloomPage.PageBuf.constructor | contrib/bloom/blutils.c:385-397 | a new page |
| BloomPage.PageBuf.InitPage | contrib/bloom/blutils.c:402-413 | an empty live page |
| BloomPage.PageBuf.AddItem | contrib/bloom/blutils.c:313-341 | the tuple is appended exactly when it fits; otherwise nothing changes |
| BloomPage.PageBuf.TryInsert | contrib/bloom/blinsert.c:254-257 | the attempt on a locked page: a new or deleted page is initialised first |
| BloomPage.PageBuf.Vacuum | contrib/bloom/blvacuum.c:81-137 | the page holds the surviving tuples in order, and is marked deleted when none is left; the number removed |
| BloomPage.PageBuf.Sweep | contrib/bloom/blvacuum.c:85-107 | the two pointers leave exactly the survivors in order |
| BloomPage.Build | contrib/bloom/blinsert.c:47-160 | the pages of a new index hold all rows in order, every page but the last is full and none is empty |
| BloomSystem.PlacedConserves | contrib/bloom/blinsert.c:198-367 | placing a tuple keeps "live tuples and removed ones are all inserted ones" |
| BloomSystem.OwnStep | contrib/bloom/blinsert.c:226-290 | starting an insert, or taking the metapage lock, keeps the invariant |
| BloomSystem.FirstTryStep | contrib/bloom/blinsert.c:234-271 | the attempt on the first listed page keeps it, whatever happened since the list was read |
| BloomSystem.RetryStep | contrib/bloom/blinsert.c:297-335 | an attempt under the metapage lock keeps it |
| BloomSystem.AloneStep | contrib/bloom/blinsert.c:341-358 | starting a page of its own keeps it |
| BloomSystem.NewPageStep | contrib/bloom/blinsert.c:337-358 | reusing a free page, or filling a new one, keeps it |
| BloomSystem.ExtendStep | contrib/bloom/blutils.c:385-397 | extending the file keeps it |
| BloomSystem.QuietStep | contrib/bloom/blvacuum.c:57-217 | starting a vacuum, or recording a free page, keeps it |
| BloomSystem.VacuumStep | contrib/bloom/blvacuum.c:66-139 | vacuuming a page keeps it |
| BloomSystem.VacuumConserves | contrib/bloom/blvacuum.c:81-107 | what leaves a page is counted as removed |
| BloomSystem.VacuumMetaStep | contrib/bloom/blvacuum.c:141-158 | replacing the list of pages with room keeps it |
| BloomSystem.StepKeepsInv | contrib/bloom/blinsert.c:198-367 | every step of every participant keeps the invariant |
| BloomSystem.InitialInv | contrib/bloom/blinsert.c:122-160 | a new index satisfies it |
| BloomSystem.BuildIndex | contrib/bloom/blinsert.c:122-160 | an index that was just built from some rows is an initial state in which those rows have been inserted |
| BloomSystem.FreshInitial | contrib/bloom/blinsert.c:47-160 | the metapage and the pages a build fills are an initial state |
| BloomSystem.RunInv | contrib/bloom/blinsert.c:198-367 | every state of every interleaving satisfies it |
| BloomSystem.RunConserves | contrib/bloom/blinsert.c:198-367 | in every state of every run the tuples on live pages are the inserted ones minus the removed ones, as multisets |
| BloomSystem.StepKeepsMeta | contrib/bloom/blinsert.c:198-367 | no step overwrites the metapage with a page of tuples |
| BloomSystem.RunMeta | contrib/bloom/blinsert.c:124-160 | so block 0 is the metapage in every state of every run |
| BloomSystem.StepKeepsTuple | contrib/bloom/blvacuum.c:33-161 | a tuple stays on its page until vacuum is told that its row is dead |
| BloomSystem.TupleStays | contrib/bloom/blvacuum.c:33-161 | the same over any stretch of a run |
| BloomSystem.LiveOnPage | contrib/bloom/blscan.c:144-187 | a live tuple is on some page |
| BloomSystem.ScanPage | contrib/bloom/blscan.c:156-183 | a page scan returns exactly the rows whose signature covers the scan's |
| BloomSystem.ScanComplete | contrib/bloom/blscan.c:81-191 | a scan that reads the pages one by one while inserts and vacuum go on returns every row that was in the index when it began, is not removed before it ends and agrees with the keys |
| BloomSolo.InsertAlone | contrib/bloom/blinsert.c:198-367 | an insert that runs alone puts the tuple on the first listed page with room, which becomes the first of the list, or on a new page, which becomes the whole list |
| BloomSolo.FreePageTakes | contrib/bloom/blinsert.c:337-358 | a free page that is handed out and can be reused takes the tuple and becomes the whole list |
| BloomSolo.VacuumAlone | contrib/bloom/blvacuum.c:57-217 | a vacuum that runs alone removes the dead tuples from every page, and the list then names the first pages, as many as fit, that keep tuples and have room |
| BtreeOrder.LessIsLex | contrib/amcheck/verify_nbtree.c:2201-2209 | the reference order (first difference decides, missing attributes and heap TID are minus infinity) is the lexicographic order of what is present |
| BtreeOrder.LessTrans | contrib/amcheck/verify_nbtree.c:2201-2209 | it is transitive |
| BtreeOrder.Compare | src/backend/access/nbtree/nbtsearch.c:558-720 | the loop of _bt_compare computes its specification |
| BtreeOrder.BtCompareMeans | src/backend/access/nbtree/nbtsearch.c:558-720 | positive exactly for greater keys; zero exactly when the key is a prefix of the item |
| BtreeOrder.InvariantsDecide | contrib/amcheck/verify_nbtree.c:2183-2291 | the three comparisons amcheck uses decide the reference order, the extra step for equal prefixes included |
| BtreeCheck.SkipEndsExactly | contrib/amcheck/verify_nbtree.c:1371-1392 | the look to the right, over ignorable pages that are not rightmost, ends exactly when their links have no circle |
| BtreeCheck.StopUnique | contrib/amcheck/verify_nbtree.c:1371-1392 | it stops at one page only |
| BtreeCheck.RightCheck | contrib/amcheck/verify_nbtree.c:1330-1526 | the check of the last item: fine, wrong, or never ending exactly when the run of ignorable pages circles |
| BtreeCheck.RightStops | contrib/amcheck/verify_nbtree.c:1330-1526 | where the look to the right stops decides the check |
| BtreeCheck.TargetPageCheck | contrib/amcheck/verify_nbtree.c:900-1312 | accepts a page exactly when the high key and every data item pass all checks, and never ends exactly when all but the last item pass and the look to the right for the last one circles |
| BtreeMeaning.PageMeans | contrib/amcheck/verify_nbtree.c:900-1312 | a page passes exactly when its attribute counts are right, its comparable items strictly increase, no item of a leaf is above its high key and every item of an internal page is below it, the last item is below the first where the look to the right stops, and every item is below all items of its child |
| BtreeMeaning.InOrderMeans | contrib/amcheck/verify_nbtree.c:1085-1228 | the high key and order checks of an item in terms of the order; a leaf item may be equal to the high key |
| BtreeMeaning.ItemMeans | contrib/amcheck/verify_nbtree.c:946-1303 | all checks of an item in terms of the order |
| BtreeCheck.CheckItem | contrib/amcheck/verify_nbtree.c:947-1303 | accepts an item exactly when attribute count, high key, item order, last item and downlink checks pass, and never ends exactly when the last item reaches a look to the right that circles |
| BtreeCheck.DownlinkCheck | contrib/amcheck/verify_nbtree.c:1537-1675 | accepts a downlink exactly when the child can be read, is not deleted, and every comparable item on it is above the key |
| BtreeCheck.CheckOne | contrib/amcheck/verify_nbtree.c:702-850 | the body of the walk for one page goes on exactly when the page passes or is half-dead and not rightmost, and never ends exactly when the page is well linked and its check never ends |
| BtreeCheck.NotVisited | contrib/amcheck/verify_nbtree.c:678-864 | a live page whose left link names the page it was reached from was not visited before |
| BtreeCheck.WalkOn | contrib/amcheck/verify_nbtree.c:678-864 | so the walk grows by a new page |
| BtreeCheck.CheckLevel | contrib/amcheck/verify_nbtree.c:678-864 | succeeds exactly when the level is a good chain (linked from leftmost to rightmost, one level, live pages passing), unless the first page names an invalid page below; never ends exactly when distinct pages from the leftmost along right links, each passed or passed over, lead back to a half-dead one among them, or lead to a page whose check circles |
| BtreeMeaning.LevelMeans | contrib/amcheck/verify_nbtree.c:678-864 | the levels checked without error, on the fields alone: distinct pages from the leftmost to a rightmost one, live ones readable, on the level, linked back and sound, half-dead ones inside only |
| BtreeCheck.BackAgain | contrib/amcheck/verify_nbtree.c:678-864 | a walk that is back in an earlier state goes on for ever |
| BtreeCheck.EndlessExactly | contrib/amcheck/verify_nbtree.c:678-864 | the walk, as a machine, takes turn after turn for ever exactly when its trail of pages leads back to a half-dead page on it |
| BtreeCheck.StuckExactly | contrib/amcheck/verify_nbtree.c:678-864 | it comes to a page whose check never ends exactly when a trail of pages leads there |
| BtreeCheck.TrailWalking | contrib/amcheck/verify_nbtree.c:678-864 | every such trail is walked, turn by turn |
| BtreeCheck.WalkingTrail | contrib/amcheck/verify_nbtree.c:678-864 | and the pages of a walk are such a trail |
| BtreeCheck.NextTurn | contrib/amcheck/verify_nbtree.c:678-864 | one turn of the walk extends the chain by a new page |
| BtreeCheck.MetAgain | contrib/amcheck/verify_nbtree.c:702-860 | a page met again is half-dead, the walk goes on for ever and there is no good level |
| BtreeCheck.WalkDone | contrib/amcheck/verify_nbtree.c:678-864 | a walk that leaves the level has seen a good chain |
| BtreeCheck.Halted | contrib/amcheck/verify_nbtree.c:678-864 | a walk that stops earlier is not endless, and no good level starts there |
| BtreeCheck.StuckOnce | contrib/amcheck/verify_nbtree.c:702-860 | the walk comes to a page whose check never ends exactly when that is where it stops |
| BtreeCheck.CircleMet | contrib/amcheck/verify_nbtree.c:702-860 | meeting a half-dead page again takes right links that lead it back to itself |
| BtreeCheck.Follows | contrib/amcheck/verify_nbtree.c:678-864 | on a good level the walk visits its pages in order |
| BtreeCheck.NoFalseAlarm | contrib/amcheck/verify_nbtree.c:678-864 | an error on the way means that no good level starts there |
| BtreeLevels.CheckEveryLevel | contrib/amcheck/verify_nbtree.c:555-580 | raises no error exactly when there are good levels one below the other from the root until nothing is below, and never ends exactly when below good levels there is one whose trail leads back to a half-dead page or to a page whose check circles |
| BtreeLevels.EndlessOne | contrib/amcheck/verify_nbtree.c:559-579 | any good levels above an endless one continue where the walk goes on, until that level is reached |
| BtreeLevels.FirstPage | contrib/amcheck/verify_nbtree.c:678-864 | the first page of a good level is on that level, and a leaf exactly on level 0 |
| BtreeLevels.LevelBelow | contrib/amcheck/verify_nbtree.c:559-579 | any complete levels continue where the walk goes on |
| BtreeLevels.ReachesLeaves | contrib/amcheck/verify_nbtree.c:559-579 | the levels reach the leaves exactly when the last leftmost page is not an internal page with block 0 as first downlink |
| BtreeLimits.LeavesMissing | contrib/amcheck/verify_nbtree.c:559-579 | an index that passes and has no leaf: an internal root whose first downlink is block 0 |
| BtreeLevels.PageIncreasing | contrib/amcheck/verify_nbtree.c:1183-1228 | the items of a page that passed are strictly increasing |
| BtreeLevels.AcrossPages | contrib/amcheck/verify_nbtree.c:1230-1284 | its last item is below the first item of the page where the look to the right stops |
| BtreeLevels.OverDead | contrib/amcheck/verify_nbtree.c:1371-1392 | the look to the right passes over the half-dead pages the walk passes over |
| BtreeLevels.NextAscends | contrib/amcheck/verify_nbtree.c:1228-1284 | so the items of a page are below those of the next live page, if that has any |
| BtreeLevels.HighKeyBounds | contrib/amcheck/verify_nbtree.c:1114-1181 | its high key is an upper bound, strict on internal pages |
| BtreeLevels.LevelExact | contrib/amcheck/verify_nbtree.c:947-1303 | after a walk without error the comparable items of the live pages of a level are strictly increasing across pages exactly when the items on either side of runs of empty pages are in order |
| BtreeLevels.LevelIncreasing | contrib/amcheck/verify_nbtree.c:947-1303 | in particular when every live page has a comparable item |
| BtreeLimits.EmptyPageHidesDisorder | contrib/amcheck/verify_nbtree.c:1330-1526 | three leaf pages that pass although their items are out of order across the empty middle page |
| BtreeLimits.RingNeverEnds | contrib/amcheck/verify_nbtree.c:710-745 | a ring of half-dead pages on which the walk goes on for ever |
| BtreeLimits.SelfLinkedNeverEnds | contrib/amcheck/verify_nbtree.c:1371-1392 | a live leaf next to a deleted page linked to itself: the look to the right never ends, on the first page of the walk |
| BtreeDescent.LevelsChecked | contrib/amcheck/verify_nbtree.c:555-580 | every live page on the levels of a tree checked without error passed the page check |
| BtreeDescent.StepBounds | contrib/amcheck/verify_nbtree.c:1632-1663 | following the downlink of any item but the first leads to items above that separator |
| BtreeDescent.SeparatorBounds | contrib/amcheck/verify_nbtree.c:1632-1663 | along a descent of any length every separator followed bounds the items at the end from below, if no later step uses a first item |
| BtreeDescent.CousinsPass | contrib/amcheck/verify_nbtree.c:1632-1663 | a three-level tree that passes every check although, through a first item, a leaf below the root's separator holds a smaller item |
| BtreeTower.BoundExactly | contrib/amcheck/verify_nbtree.c:1632-1663 | for every descent, given by the items it follows: in some tree that passes all checks an item at its end is not above the separator of a step exactly when a later step follows a first item |
| BtreeTower.TowerBreaks | contrib/amcheck/verify_nbtree.c:1632-1663 | for every descent with a later first item, a tree that passes and breaks the bound |
| BtreeTower.TowerComplete | contrib/amcheck/verify_nbtree.c:555-580 | that tree passes on every level |
| Cube.Union | contrib/cube/cube.c:691-753 | the smallest box around both, for any dimensions; a degenerate result is stored as a point |
| Cube.UnionLarger | contrib/cube/cube.c:711-752 | the same once the first has no fewer dimensions |
| Cube.IsPoint | contrib/cube/cube.c:1481-1502 | a point exactly when both corners agree in every dimension |
| Cube.UnionCovers | contrib/cube/cube.c:691-753 | a union covers both arguments |
| Cube.UnionLeast | contrib/cube/cube.c:691-753 | and is covered by whatever covers both |
| Cube.GUnion | contrib/cube/cube.c:368-392 | the fold over a page is the smallest box around all entries; for a single entry there is none |
| Cube.CoversTrans | contrib/cube/cube.c:691-753 | covering is transitive, so keys cover everything below |
| Cube.Overlap | contrib/cube/cube.c:1145-1181 | true exactly when the boxes meet in every dimension, missing ones read as zero |
| Cube.OverlapLarger | contrib/cube/cube.c:1155-1180 | the same after the swap |
| CubeMeaning.OverlapMeans | contrib/cube/cube.c:1145-1181 | that is, exactly when the boxes share a point |
| Cube.CubeContains | contrib/cube/cube.c:1075-1111 | true exactly when the first holds the second in each of the second's dimensions |
| CubeMeaning.ContainsMeans | contrib/cube/cube.c:1075-1111 | that is, when every point of the second, in its dimensions, is in the first |
| Cube.OverlapSafe | contrib/cube/cube.c:651-676 | pruning for overlap loses no member |
| Cube.ContainsSafe | contrib/cube/cube.c:651-676 | nor for contains |
| Cube.SameSafe | contrib/cube/cube.c:651-676 | nor for same |
| Cube.ContainedByExact | contrib/cube/cube.c:651-676 | for contained-by a key above a matching member is kept exactly when it meets the query in the dimensions the query has and the member lacks |
| Cube.ContainedBySafe | contrib/cube/cube.c:651-676 | so contained-by is safe for queries with no more dimensions than the member |
| CubeTree.ContainedByLoses | contrib/cube/cube.c:651-676 | a member that a contained-by search of a sound index misses |
| Cube.CmpCoords | contrib/cube/cube.c:897-917 | the first difference decides |
| Cube.Cmp | contrib/cube/cube.c:888-966 | the six loops compute the specified comparison |
| Cube.CmpExtra | contrib/cube/cube.c:919-960 | the dimensions only one box has are compared with zero |
| Cube.CmpZero | contrib/cube/cube.c:888-966 | zero exactly for equal boxes of equal dimension |
| Cube.CmpFlip | contrib/cube/cube.c:888-966 | swapping the arguments negates the result |
| Cube.CmpTrans | contrib/cube/cube.c:888-966 | transitive when every dimension is 0 or one given d |
| CubeMeaning.CmpMeans | contrib/cube/cube.c:888-966 | which cube is greater: at the first difference of lower, then of upper bounds in the common dimensions, then of the others against zero, then by more dimensions |
| Cube.CmpCircle | contrib/cube/cube.c:888-966 | for any two different positive dimensions, three cubes each greater than the next |
| Cube.TransitiveExactly | contrib/cube/cube.c:888-966 | on cubes of a set of dimensions the comparison is transitive exactly when at most one of them is not zero |
| Cube.Distance1DIsGap | contrib/cube/cube.c:1454-1467 | the branches compute the gap between two intervals, for corners in either order |
| Cube.GapOf | contrib/cube/cube.c:1204-1347 | what either loop adds in a dimension is the gap, a missing dimension read as zero |
| CubeMeaning.GapMeans | contrib/cube/cube.c:1454-1467 | the gap is the least distance of two points of the intervals, and is attained |
| Cube.Swapped | contrib/cube/cube.c:1204-1347 | swapping the boxes changes none of the three distances |
| Cube.Taxicab | contrib/cube/cube.c:1253-1295 | the sum of the gaps |
| Cube.OneDimension | contrib/cube/cube.c:1204-1295 | a change of the gap in one dimension changes the taxicab distance by as much, and the squared one by the difference of the squares |
| Cube.NoGaps | contrib/cube/cube.c:1204-1347 | without gaps all three distances are zero |
| Cube.SquaredDistance | contrib/cube/cube.c:1204-1251 | the sum of their squares |
| Cube.Chebyshev | contrib/cube/cube.c:1297-1347 | the greatest gap |
| Cube.ChebyIsGreatest | contrib/cube/cube.c:1297-1347 | no gap is greater, and it is one of them |
| Cube.DistanceBounds | contrib/cube/cube.c:1349-1452 | under all three metrics a key is no further from the query than any member below it |
| Cube.EuclidBounds | contrib/cube/cube.c:1204-1251 | and so under the Euclidean metric, the root of the sum of squares |
| Cube.CoordBound | contrib/cube/cube.c:1357-1426 | the same for ordering by a coordinate, ascending or descending, by lower or upper corner |
| Cube.CoordIs | contrib/cube/cube.c:1357-1426 | which corner and sign the coordinate number selects |
| CubeTree.NotPruned | contrib/cube/cube.c:622-676 | when a key above a member that satisfies the search lets it through, for the four strategies |
| CubeTree.TestMeans | contrib/cube/cube.c:651-676 | the test on a key asks whether some box it covers could overlap the query, or contain it |
| CubeTree.SearchExact | contrib/cube/cube.c:622-676 | a search finds exactly the members that satisfy it and lie below keys that meet the query in its excess dimensions |
| CubeTree.AllOpen | contrib/cube/cube.c:622-676 | which, for overlap, same and contains, and for contained-by when the query holds zero in its excess dimensions, is all members |
| CubeTree.SearchComplete | contrib/cube/cube.c:622-676 | so then a search of any sound tree finds exactly the members that satisfy it |
| CubeTree.ContainedByFinds | contrib/cube/cube.c:651-676 | a member contained in the query is found in every sound tree that holds it if and only if the query holds zero in the dimensions the member lacks |
| CubeTree.MissedAlone | contrib/cube/cube.c:651-676 | otherwise a page with that member alone is a tree that loses it |
| CubeTree.UnionKeyedSound | contrib/cube/cube.c:368-392 | trees keyed by the smallest boxes that the fold computes are sound, however deep |
| CubeTree.InsertSound | contrib/cube/cube.c:368-392 | so is a page widened by union for a new entry |
| CubeTree.TreeBounds | contrib/cube/cube.c:1349-1452 | everywhere in a tree the distances of a key bound those of the members below |

## Left out

- Characters: bytes are modelled as characters, and C strings as strings; a NUL
  inside a text is excluded where the source takes a C string.
- Library code stands behind small specifications or parameters: qsort (any sorted
  arrangement; equal keys in any order), strtol, memcmp, the hash functions of index
  columns, crc32, and the comparison of index attributes, which are taken to be
  values of an ordered type with descending order and nulls already folded in.
- `isspace` is that of the C locale, whatever locale the server runs in.
- `strtol` is given a `long` that holds every numeral of 15 characters.
- Memory contexts, TOAST, varlena headers, write-ahead logging, the buffer manager,
  interrupts, and recursion limits (`check_stack_depth`).
- The allocation limit is modelled for results, not for the growing buffers of the
  parsers and printers.
- Error positions of the hstore reader are given as the remaining text.
- hstore: records, JSON, binary send and receive, construction from arrays,
  set-returning functions, `slice_to_array`, extended hashing.
- intarray: the other operators on integer arrays, `querytree`, and `rboolop`, which
  only swaps arguments.
- GiST penalty functions: heuristics without correctness content.
- btree_gist: multibyte text prefixes, `gbt_var_leaf2node` conversions, the on-disk
  layout of keys, and the per-type wrappers.
- bloom: options, cost estimates, and all of the metapage but its list of pages with
  room; the block size is a parameter; one vacuum runs at a time.
- amcheck: the mode that runs beside writers, indexes without heap TID in the key,
  the heap and root-descent checks, the missing-downlink check, tuple sizes and line
  pointers.
- amcheck: a downlink to the metapage is taken as one to a page that cannot be read,
  which is an error as well.
- cube: rounding and NaN; input, output, intersection, enlargement and page split.
- BtreeCheck.TargetPageCheck: no tuple sizes and line pointers.
- BtreeMeaning.PageMeans: for indexes whose items have at most the index's attributes;
  on others the order of items has no meaning.
- HStoreFormats.NewMeans: nulls apart, because the test looks neither at the null flag
  of the first key nor at the length of a null value.
- BtreeDescent.SeparatorBounds: says nothing about descents that pass through a first
  item later, because the bound can be lost on all of them (BtreeTower.BoundExactly).
- Cube.CoordBound: the coordinate is any integer; negating the least 32-bit one, which
  has no meaning in C, is not modelled.
- BloomSign.SignValue: a shift by a negative count, which the two bad seeds lead to,
  is represented by an arbitrary mask.
- Cube.SquaredDistance: stops before the square root (Cube.EuclidBounds takes any root).
- HStoreGist.DealOne: the bias for balance is computed in reals, not in floating point.
- HStoreUpgrade.Value.Upgrade: the count of a value is trusted to match its entries.
