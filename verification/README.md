# Verified model of USSR

USSR is a scripting language with its runtime in C. This project models the parts of it that are
algorithms and protocols, and proves what they promise. Code that changes things step by step is
modelled by classes and methods that change the same fields in the same order; each method is
proved against a function or a predicate on values, and the promises are lemmas about those.

`dafny verify dfyconfig.toml` checks everything.

- **Regular expressions** (`src/regex.c`). `Utf8` decodes characters. `RegexProgram` is the
  instruction set, `RegexBacktrack` the plain depth-first search that gives a program its meaning:
  first branch first, each instruction once at each position, starts from left to right.
  `RegexPike` shows that going through the text in lock-step finds the same match and the same
  spans, and `RegexVm` is the machine itself, with its two thread lists, marks, and the stack whose
  entries restore saved positions. `RegexTree` says what a pattern means, `RegexFragment` and
  `RegexRepeat` that code may be moved, copied and put together, `RegexSyntax` how a pattern is read
  and `RegexCompiler` the parser that emits and moves code as it reads. `RegexNotation` writes
  patterns out, independently of the reading. `RegexCaptures` relates the spans that are reported to
  the groups of the pattern. `RegexWays` lists all ways in which a pattern matches, in the order in
  which it prefers them, and `RegexPriority` shows that the first of the list is the one that is
  found. `RegexEngine` puts it all together: compile, then search, against the meaning of the
  pattern. `RegexMeaning` says what a written pattern matches without its tree or its code, down to
  literal tables of characters, and `RegexErrors` what is no pattern.
- **The B+ tree** (`src/btree.c`). `BtreeKeys` is the order and the ordered map as a sorted
  sequence, `BtreeNode` a node and what is moved inside it, `BtreeShape` the invariant (order,
  separators, one depth, filling, leaf chain), `BtreeBalance` and `BtreeChain` what splitting and
  pooling do to it, `BtreeGrow` and `BtreeFix` putting and repairing, `Btree` the tree, and
  `BtreeSearch` the walks over it.
- **The collector** (`src/gc.c`): `Gc`.
- **The generator** (`src/prng64_xrp32.c`): `Words` is 64-bit arithmetic on naturals, `Prng` the
  generator and its seeder.
- **JSON** (`src/ai.c`): `JsonText` writes strings, `JsonRead` reads, `Json` shows that what has
  been printed is read back.
- **Chunked bodies** (`src/ryazan.c`): `Chunked`.
- **Calls of the virtual machine** (`src/main.c`): `VirtualMachine` says what instructions do,
  `VmRuns` what calls and `try` keep over whole runs, `VmBlocks` what tests and loops come to,
  `Interpreter` is the machine with its registers, frames and the variables it shares.
- **Names that were meant** (`src/main.c`): `EditDistance`.
- **The preprocessor** (`src/pp.c`): `Conditionals` is the stack of conditions and its meaning as
  nested blocks, `Preprocessor` the run over files and the map from output lines to their origin.

Where the code and what is said about it differ, the model follows the code:

- `src/main.c:1686` says of the edit distance that anything over the limit is one more than the
  limit. The code reports the distance itself when the lengths are near enough, and one more than
  the limit for every name of more than 64 bytes. `WhenOverIsOneMore` tells by the two lengths and
  the limit exactly when the remark is true, `OverCanBeMore` gives two names for which it is not.
  What the suggestion of a name depends on, `ReportedWithin`, is true always, but for names of more
  than 64 bytes, which are never suggested.
- The manual (`docs/USSR_USER_MANUAL.md:1061-1062`) says that repeats are greedy unless they are
  lazy, and that of two alternatives the first that works wins. `SearchPrefers` proves just that, for
  all spans, of every pattern that repeats without limit only what cannot be empty. For others the
  code goes through a loop once at each place only: `EmptyRepeatDiffers` gives a pattern for which it
  settles for another match than the preferred one.
- The decoder of the regular expressions takes the surrogates D800 to DFFF, which section 3 of
  RFC 3629 rules out. `SurrogateExactly` says at which bytes it does, `SurrogateAccepted` gives the
  first of them.

## Model

| member | source | states |
|---|---|---|
| Utf8.DecodeChar | src/regex.c:86-124 | the byte loop computes the character and its size as the specification does |
| Utf8.EncodeDecode | src/regex.c:86-124 | a character, encoded again, is the very bytes it was decoded from, for good and bad bytes alike |
| Utf8.DecodeEncode | src/regex.c:86-124 | decoding inverts UTF-8 encoding for every value up to 0x10FFFF, whatever follows |
| Utf8.BadByteExactly | src/regex.c:86-124 | a byte becomes its own bad-byte character exactly when no encoding of a character starts there |
| Utf8.SurrogateExactly | src/regex.c:86-124 | what is decoded is a scalar value or a bad byte except exactly at the bytes ED, A0 to BF, and one more tail byte |
| Utf8.SurrogateAccepted | src/regex.c:86-124 | the bytes ED A0 80 are taken for the surrogate D800 |
| Utf8.CharsCoverText | src/regex.c:126-133 | every byte string splits into characters whose encodings, joined, are that string |
| RegexBacktrack.SearchIsLeftmost | src/regex.c:898-989 | the depth-first search finds something iff some start accepts; what it finds is an accepted piece with the least start, with what was recorded on a way through it |
| RegexBacktrack.FoundIsLedTo | src/regex.c:898-989 | the spans that are found are those recorded on the way from some thread of the list to a match |
| RegexPike.RunLevelRefines | src/regex.c:783-886 | following all threads of one position, then the rest, finds what depth-first search finds from the same threads |
| RegexPike.LockStepIsBacktrack | src/regex.c:898-989 | from any thread list and any best match so far, lock-step gives the answer of depth-first search, spans included |
| RegexPike.LockStepIsSearch | src/regex.c:898-989 | over a whole text the lock-step search and the depth-first search give the same match and spans |
| RegexPike.ClosureIsShort | src/regex.c:740-747 | a thread list holds each instruction at most once, so never more threads than there is code |
| RegexPike.LockStepRound | src/regex.c:911-987 | one round over a character keeps the promise of the final answer |
| RegexVm.StepKeepsPromise | src/regex.c:800-884 | taking one entry off the stack, with its restore entries, keeps what the stack still has to deliver |
| RegexVm.StepSize | src/regex.c:740-747 | the stack grows by no more than the newly marked instructions pay for |
| RegexVm.Regex.PopEntry | src/regex.c:800-884 | one pass of the loop, in place, is one step of the stack machine |
| RegexVm.Regex.AddThread | src/regex.c:783-886 | a thread list gets exactly what closing the new thread adds, the saved positions are restored, and the pops are paid for by marks |
| RegexVm.Regex.ClassHas | src/regex.c:888-896 | the loop over a class finds a range with the character iff there is one |
| RegexVm.Regex.Advance | src/regex.c:930-982 | the threads that take the character go on, in order, up to the first that matches |
| RegexVm.Regex.SearchAt | src/regex.c:911-987 | one round of the search refines one round of lock-step, within linear work |
| RegexVm.Regex.Prepare | src/regex.c:735-750 | a compiled program gets lists, stack and marks big enough for every search |
| RegexVm.Regex.Search | src/regex.c:888-989 | the search returns the match and spans of the depth-first search, stays inside its lists, stack, marks and table of ranges, and does work linear in the text: positions, entries, threads, slots copied and ranges compared are, for each position, at most 9 times code length times one more than the slots and three times the ranges |
| RegexFragment.RunPlaced | src/regex.c:163-197 | a run of a fragment is a run of any code that holds the fragment, wherever it is put |
| RegexFragment.RunLeaves | src/regex.c:163-197 | a run that enters a closed fragment and leaves it has run the fragment to its end |
| RegexFragment.RunsJoin | src/regex.c:163-197 | two fragments in a row run over what the first and then the second run over |
| RegexRepeat.StarRuns | src/regex.c:560-569 | the loop emitted for `*` runs over any number of repeats and nothing else, greedy or lazy |
| RegexRepeat.PlusRuns | src/regex.c:570-577 | the loop emitted for `+` runs over one repeat or more |
| RegexRepeat.RepeatedRuns | src/regex.c:544-612 | the code for `{n,m}` runs over exactly the allowed numbers of repeats, for all n and m, bounded or not |
| RegexRepeat.EitherRuns | src/regex.c:675-700 | the code of an alternation runs over what either side runs over |
| RegexTree.GenRuns | src/regex.c:385-700 | the code of any pattern runs from one place to another iff the pattern parses the text between them, the ends of its groups recorded alike, and its jumps stay inside it |
| RegexTree.ParsedIsDenoted | src/regex.c:385-700 | what is parsed with groups is matched without them |
| RegexTree.DenotedIsParsed | src/regex.c:385-700 | whatever is matched has a parse with groups, whatever was recorded before |
| RegexTree.GenRunsOverWhatItDenotes | src/regex.c:385-700 | the code of any pattern runs over a piece of text iff the pattern matches it |
| RegexTree.ProgramValid | src/regex.c:702-755 | the program of any pattern jumps, saves and looks up ranges within bounds |
| RegexTree.AcceptsWhatItDenotes | src/regex.c:385-755 | the whole program accepts a piece of text iff the pattern matches it |
| RegexTree.RunIsParse | src/regex.c:385-755 | a run of the whole program to its match is a parse of the pattern |
| RegexCaptures.OthersStay | src/regex.c:398-445 | a parse leaves the slots of groups that are not in the pattern |
| RegexCaptures.ParseRecords | src/regex.c:398-445 | a parse leaves a group as it was or records a piece that the body of the group matches, through repeats and nested groups |
| RegexCaptures.LeadsIsRun | src/regex.c:783-886 | the slots of a thread are what a run of the code has recorded |
| RegexCaptures.ReportedIsParsed | src/regex.c:783-989 | the spans that a search reports are those of one parse of the pattern |
| RegexCaptures.SpansDelimit | src/regex.c:783-989 | each group has no span, or one inside the match of a piece of text that its body matches |
| RegexCaptures.LastTimeIsRecorded | src/regex.c:398-445 | of a group that is repeated the last time is recorded, from where it began to where it ended |
| RegexWays.WaysAreParses | src/regex.c:385-700 | the list of ways, in order of preference, holds the parses of a pattern, all of them and nothing else, when nothing repeated without limit can be empty |
| RegexWays.NoneIsFirstOrLast | src/regex.c:544-612 | no repeat at all is the first way of a lazy repeat that need not be, and the last of a greedy one |
| RegexPriority.BestIsFirst | src/regex.c:385-700 | choosing at each branch the first way that can still be completed gives the first way of the list that ends where it should |
| RegexPriority.DepthFirstFollows | src/regex.c:783-886 | depth-first search reports what always taking the first branch that leads to a match comes to |
| RegexPriority.FragmentComes | src/regex.c:544-700 | through the code of a pattern those choices go the first way of the pattern: the left alternative first, more repeats first when greedy, fewer when lazy |
| RegexPriority.SearchPrefers | src/regex.c:544-989 | the match and the spans that are found are the first of all ways to match from where the match starts, when nothing repeated without limit can be empty |
| RegexPriority.EmptyRepeatDiffers | src/regex.c:783-886 | a pattern that repeats, without limit, what can be empty, and a text in which another way is found |
| RegexCompiler.Parser.Emit | src/regex.c:145-161 | appends one instruction unless the code is full |
| RegexCompiler.Parser.Insert | src/regex.c:163-181 | puts one instruction before the code from a place on, moved up in place |
| RegexCompiler.Parser.Copy | src/regex.c:183-197 | appends a copy of a piece of the code |
| RegexCompiler.Parser.AddRanges | src/regex.c:199-222 | appends the ranges of a shorthand to the table, or fails when it is full |
| RegexCompiler.Parser.ParseEscape | src/regex.c:249-296 | the character after a backslash, or an error exactly when there is none |
| RegexCompiler.Parser.ParseClass | src/regex.c:298-383 | a class in brackets: its ranges in the table and one instruction |
| RegexCompiler.Parser.ParseCounts | src/regex.c:490-542 | `{n}`, `{n,}`, `{n,m}`, or not a count, or a wrong one, as the specification reads it |
| RegexCompiler.Parser.Repeat | src/regex.c:544-612 | inserting and copying in place gives exactly the code of the repeated fragment, and fails exactly when that does not fit |
| RegexCompiler.Parser.ParseSuffix | src/regex.c:614-672 | what repeats an atom, and that nothing may repeat it twice |
| RegexCompiler.Parser.ParseAtom | src/regex.c:388-488 | an atom: the code appended is that of the tree that is read |
| RegexCompiler.Parser.ParsePiece | src/regex.c:614-672 | an atom with its repeat: the code appended is that of the tree that is read |
| RegexCompiler.Parser.ParseAlternatives | src/regex.c:674-700 | alternatives: the code appended is that of the tree that is read; failing means a malformed pattern or one over a limit |
| RegexNotation.MembersRead | src/regex.c:298-383 | the members of a class, written out, are read as their ranges |
| RegexNotation.TimesRead | src/regex.c:490-542 | every written repeat is read with its least, its most and its laziness |
| RegexNotation.ExprRead | src/regex.c:385-700 | a written expression is read to its end, in any context, as its tree |
| RegexNotation.ReadsWhatWasWritten | src/regex.c:385-755 | every pattern that can be written is read as what was written: precedence, escapes, counts, and groups numbered as they open |
| RegexEngine.PatternFits | src/regex.c:702-755 | a pattern that is read has its ranges in the table and its groups counted |
| RegexEngine.PatternNumbers | src/regex.c:385-488 | no two groups of a pattern that is read have the same number |
| RegexEngine.Compile | src/regex.c:702-755 | compiling succeeds iff flags and pattern are well formed and fit the limits; the program is that of the tree, ready to search |
| RegexEngine.CompiledSearch | src/regex.c:702-989 | searching a compiled pattern finds something iff the pattern matches from some start; the span found is matched and starts first, and all spans are those of one parse, each group without one or with one its body matches; it is the parse that the pattern prefers when nothing repeated without limit can be empty |
| RegexEngine.WrittenSearch | src/regex.c:702-989 | a written pattern has no NUL and compiles iff it is within the limits; searching it finds something iff what was written matches somewhere, and then the spans of such a match |
| RegexEngine.CompileAndSearch | src/regex.c:702-989 | the same of the code that compiles and then searches, from any start; past the end of the text nothing is found |
| RegexMeaning.ShorthandHolds | src/regex.c:77-83 | `\d`, `\w`, `\s` and their capitals hold exactly the characters that literal tables name, and there are no other shorthands |
| RegexMeaning.ValueIs | src/regex.c:240-296 | a control letter stands for its code, two digits of base 16 for their number, all else for itself |
| RegexMeaning.CharacterMeans | src/regex.c:888-973 | which characters an item takes: both cases of a letter under flag `i`, a newline for a dot under flag `s`, the members of a class or all others |
| RegexMeaning.PlaceMeans | src/regex.c:836-875 | where an item holds between characters: ends of the text, of lines under flag `m`, and edges of words |
| RegexMeaning.TreeMeans | src/regex.c:385-755 | a written pattern matches what its alternatives, terms in a row and counts say, said of the notation alone |
| RegexMeaning.StartsAre | src/regex.c:911-987 | the places where a match may start are those between characters from the given one on, and the end |
| RegexMeaning.SearchFindsWhatIsMeant | src/regex.c:702-989 | searching for a written pattern finds something iff it means some piece of the text from some start, and then such a piece with the least start |
| RegexErrors.EscapeIs | src/regex.c:249-296 | which escapes there are; all other letters and all digits after a backslash are refused |
| RegexErrors.StrayParenthesis | src/regex.c:702-755 | a pattern with a parenthesis that nothing has opened is refused |
| RegexErrors.MissingParenthesis | src/regex.c:398-445 | so is one with a parenthesis that nothing closes |
| RegexErrors.OtherParenthesis | src/regex.c:398-445 | and one with any other parenthesis and question mark, as for looking ahead |
| RegexErrors.MissingBracket | src/regex.c:298-383 | a class that nothing closes is refused |
| RegexErrors.NothingToRepeat | src/regex.c:446-483 | a repeat of nothing is refused |
| RegexErrors.RepeatedTwice | src/regex.c:614-672 | a repeat of a repeat is refused, whatever follows |
| RegexErrors.TooManyRepeats | src/regex.c:490-542 | a count of more than 1000 is refused |
| RegexErrors.BadLimit | src/regex.c:490-542 | a limit of more than 1000, or below the minimum, is refused |
| BtreeKeys.CompareIsTotalOrder | src/btree.c:62-84 | comparing keys is a total order, and only a key itself compares equal to it |
| BtreeKeys.LessIs | src/btree.c:62-84 | which order: numbers by size, every number before every string, strings by the first byte that differs or else the shorter first |
| BtreeKeys.PutIsUpdate | src/btree.c:317-425 | setting a key in a sorted sequence is map update, one longer iff the key is new |
| BtreeKeys.RemoveIsRemoval | src/btree.c:510-555 | taking a key out of a sorted sequence is map removal |
| BtreeNode.Node.Upper | src/btree.c:86-102 | the binary search finds the first key above |
| BtreeNode.Node.Lower | src/btree.c:104-120 | the binary search finds the first key not below |
| BtreeNode.Node.SplitItems | src/btree.c:347-354 | the upper half of a leaf moves to the new one |
| BtreeNode.Node.SplitKids | src/btree.c:383-392 | the upper half of the children moves to the new node, and the middle key goes up |
| BtreeBalance.GoodIsSorted | src/btree.c:317-394 | in a tree that keeps the invariant the keys, leaf after leaf, are sorted and within their bounds |
| BtreeBalance.SplitGood | src/btree.c:345-394 | both parts of a node are in order around the middle key, and at least half full when the node was one too full |
| BtreeBalance.PoolGood | src/btree.c:427-508 | two neighbours put together are in order around their separator |
| BtreeChain.LinkAfter | src/btree.c:355-359 | a new leaf goes into the chain after its left half, both ways |
| BtreeChain.Unlink | src/btree.c:491-493 | a leaf that has been merged goes out of the chain, both ways |
| BtreeFix.BorrowLeft | src/btree.c:435-456 | borrowing from the left gives a repaired tree with the same contents |
| BtreeFix.BorrowRight | src/btree.c:457-479 | borrowing from the right gives a repaired tree with the same contents |
| BtreeFix.MergeKids | src/btree.c:480-507 | merging gives a repaired tree with the same contents, one separator less, and without the node of the second child |
| BtreeFix.Fix | src/btree.c:427-508 | a child that is one short is repaired, whichever way is taken |
| Btree.Btree.SplitLeaf | src/btree.c:345-362 | a leaf that is too full becomes two in the chain |
| Btree.Btree.Insert | src/btree.c:317-394 | below any node, inserting sets the key, and hands up at most one separator and one new node |
| Btree.Btree.Put | src/btree.c:397-425 | put is map update, refuses anything but numbers and strings, counts, and keeps the whole invariant through all splits |
| Btree.Btree.DeleteFrom | src/btree.c:510-535 | below any node, deleting takes out just the key, and leaves the node at most one short |
| Btree.Btree.Delete | src/btree.c:537-555 | delete removes just that key, says whether it was there, counts, and keeps the whole invariant through borrowing, merging and the collapse of the root |
| BtreeSearch.LeafFor | src/btree.c:122-129 | the way down ends at the leaf that the key belongs to |
| BtreeSearch.Get | src/btree.c:303-315 | looking a key up is looking it up in the map |
| BtreeSearch.Seek | src/btree.c:567-584 | the place found divides the keys into those before and those after, along the next links |
| BtreeSearch.SeekBack | src/btree.c:586-604 | the place found is the last before the divide, along the prev links |
| BtreeSearch.DivideIsNext | src/btree.c:567-604 | such a divide is the map's next and last key |
| BtreeSearch.First | src/btree.c:606-617 | the first place of the first leaf is the first key |
| BtreeSearch.Last | src/btree.c:619-630 | the last place of the last leaf is the last key |
| BtreeSearch.Ceil | src/btree.c:567-584 | ceil and next are the least key not below, or above, in the map |
| BtreeSearch.Floor | src/btree.c:586-604 | floor and prev are the greatest key not above, or below, in the map |
| BtreeSearch.Ends | src/btree.c:606-630 | min and max of the map, none iff it is empty |
| BtreeSearch.RangeIs | src/btree.c:680-774 | a range of the sorted items holds exactly the items of the map with keys in [lo, hi), in order |
| BtreeSearch.Range | src/btree.c:680-774 | the loop along the chain gives the first `limit` items of the range |
| Gc.ReachableIsMarked | src/gc.c:93-144 | once marks are closed under references, whatever is reachable from marked roots is marked |
| Gc.Registry.Register | src/btree.c:191-201 | a new object goes to the front of its list, unmarked |
| Gc.Registry.Unregister | src/gc.c:180-255 | an object goes out of its linked list and nothing else moves |
| Gc.Registry.DropReferences | src/gc.c:146-208 | the first pass takes from the count of each unmarked object just the references that unmarked objects of the list hold, never below zero, and leaves the counts of survivors |
| Gc.Collector.Detach | src/gc.c:188-208 | over all three lists: survivors keep their counts, garbage loses what garbage held of it |
| Gc.Registry.Reclaim | src/gc.c:210-248 | the second pass keeps the marked in order, frees each of the rest once, and counts them |
| Gc.MarkValue | src/gc.c:93-144 | marking a value marks exactly what can be reached from it past unmarked objects, over all three kinds |
| Gc.Collector.constructor | src/gc.c:25-40 | a new collector has three empty lists of its own and has freed nothing |
| Gc.Collector.ObjectCount | src/gc.c:61-74 | the walks through the three lists count every object once |
| Gc.Collector.NoteAlloc | src/gc.c:42-49 | a collection is asked for at every so many allocations |
| Gc.Collector.Begin | src/gc.c:81-91 | no object is marked |
| Gc.Collector.MarkRoots | src/gc.c:133-144 | after marking any roots, exactly what is reachable from them is marked |
| Gc.Collector.Sweep | src/gc.c:180-255 | exactly the marked objects survive, unchanged; the others are freed once each and counted |
| Gc.Collector.Collect | src/gc.c:81-255 | begin, mark and sweep leave exactly what is reachable from the roots, with contents and refcounts as they were and no reference to what was freed; survivors and freed add up |
| Words.RotateBack | src/prng64_xrp32.c:154-164 | rotating right undoes rotating left |
| Prng.BackUndoesStep | src/prng64_xrp32.c:224-240 | the step can be undone, so no two states have the same next state |
| Prng.StepUndoesBack | src/prng64_xrp32.c:224-240 | every state is the next of some state |
| Prng.OutputTellsX | src/prng64_xrp32.c:228-228 | the output is a bijection of one word of the state |
| Prng.UnmixUndoesMix | src/prng64_xrp32.c:265-272 | the mixer of the seeder can be undone |
| Prng.MixUndoesUnmix | src/prng64_xrp32.c:265-272 | the mixer of the seeder reaches every word |
| Prng.StepBits | src/prng64_xrp32.c:224-240 | each bit of the four words after a draw, from the bits before it |
| Prng.OutputIs | src/prng64_xrp32.c:228-228 | what is drawn, as products and a rotation given bit by bit |
| Prng.MixIs | src/prng64_xrp32.c:265-272 | the mixer as three folds given bit by bit, with its two factors |
| Prng.SeededIs | src/prng64_xrp32.c:265-288 | the state is the next four words of the sequence that the seed begins, mixed |
| Prng.Splitmix.Next | src/prng64_xrp32.c:265-272 | the seeder adds its constant and gives the mixed sum |
| Prng.Generator.Next | src/prng64_xrp32.c:224-262 | one draw, statement by statement, is one step and its output |
| Prng.Generator.Seed | src/prng64_xrp32.c:274-288 | seeding fills the state with four words of the seeder |
| Prng.OnlyZeroStays | src/prng64_xrp32.c:224-240 | the state of all zeros, and no other, is left as it is by a draw |
| Prng.AfterIsInjective | src/prng64_xrp32.c:224-240 | two states that agree after any number of draws were the same |
| Prng.NeverZero | src/prng64_xrp32.c:224-240 | a state that is not all zero never becomes so |
| Prng.SeededNeverZero | src/prng64_xrp32.c:224-288 | for every seed and every number of draws the state is not all zero |
| Prng.SeedsStayApart | src/prng64_xrp32.c:224-288 | different seeds give different first outputs, and different states for ever |
| JsonText.Buffer.Add | src/ai.c:42-65 | the text is appended, whether the buffer has to grow or not |
| JsonText.AddJsonString | src/ai.c:73-103 | the loop appends the string in quotes with every byte escaped as it must be |
| JsonRead.Skip | src/ai.c:152-199 | the pointer loop and its recursion skip the value that the grammar function reads |
| JsonRead.JsonString | src/ai.c:201-308 | the decoding loop gives the text of the string, or nothing where there is none |
| JsonRead.SeenIsAll | src/ai.c:201-308 | the caller, who sees the bytes before the first NUL, sees all of the text iff it has no NUL |
| JsonRead.DecodeEscape | src/ai.c:201-308 | one `\u` escape, surrogate pairs included, is decoded to its code |
| JsonRead.Get | src/ai.c:310-344 | the loop over members stops at the value of the first with that key |
| JsonRead.At | src/ai.c:346-367 | the loop over elements stops at that element |
| Json.SkipsWhatWasPrinted | src/ai.c:133-199 | skipping a printed value stops exactly after it, for every tree, spaced in any way |
| Json.FindsElement | src/ai.c:346-367 | an index finds exactly that element of a printed list, or nothing when there is none |
| Json.FindsMember | src/ai.c:310-344 | a key finds the value of the first member written with it, or nothing when there is none |
| Json.EscapedIsInjective | src/ai.c:73-103 | different strings are written differently |
| Json.PlainKey | src/ai.c:310-344 | for a key without escapes, written alike means alike |
| Json.DecodesWhatWasPrinted | src/ai.c:201-308 | decoding a printed string gives back its bytes |
| Json.CharRead | src/ai.c:201-308 | every character in `\u` escapes, in pairs where needed, is decoded to its UTF-8 bytes |
| Json.DecodesAnySpelling | src/ai.c:201-308 | a string written with any of the eight short escapes and any codes is decoded to its bytes, from a literal table of the escapes |
| Json.TokensAre | src/ai.c:133-199 | which bytes are space, and which can begin and go on in a number or a word |
| Json.NumbersAreTokens | src/ai.c:152-199 | whatever is written in the characters of numbers is one token |
| Chunked.DecodeChunk | src/ryazan.c:641-685 | one chunk, moved down in place, is one step of decoding: what has not been read is never overwritten |
| Chunked.Dechunk | src/ryazan.c:641-685 | decoding in place gives the result and the bytes that decoding a copy gives, and leaves what is past the end |
| Chunked.ResponseComplete | src/ryazan.c:714-729 | a response counts as complete iff decoding it does not ask for more |
| Chunked.DecodesWhatWasSent | src/ryazan.c:641-685 | every encoding, its sizes written in base 16, with extensions and whatever follows, decodes to the pieces joined |
| Chunked.PrefixIsIncomplete | src/ryazan.c:641-685 | every strict prefix before the end of the last-chunk line is incomplete |
| Chunked.CompleteFromTheLastLine | src/ryazan.c:641-729 | of a stream cut anywhere: incomplete before the end of that line, the full body from there on |
| Chunked.HexTextRead | src/ryazan.c:650-662 | a size in base 16, in either case and with any zeros before it, is read as that number, and refused just when it is too much |
| Chunked.TooMuchIsMalformed | src/ryazan.c:650-662 | a chunk of too great a size makes the body malformed, whatever follows |
| Chunked.CompleteIsSent | src/ryazan.c:641-685 | whatever is decoded to its end is chunks that could have been sent, with a last line, and the body is their data |
| Chunked.NoSizeIsMalformed | src/ryazan.c:663-666 | where a chunk does not start with a size the body is malformed |
| Chunked.BadEndIsMalformed | src/ryazan.c:675-683 | where the data does not end a line the body is malformed |
| EditDistance.DistanceIsLeast | src/main.c:1686-1717 | the recursive distance is the least number of single-byte edits |
| EditDistance.ReportedWithin | src/main.c:1686-1717 | what is reported is within the limit iff the distance of not too long names is, and is then the distance |
| EditDistance.NotAlwaysOneMore | src/main.c:1686-1717 | for all other lengths there are names whose excess is reported otherwise |
| EditDistance.WhenOverIsOneMore | src/main.c:1686-1717 | for any two lengths and any limit: every excess is reported as one more than the limit iff the lengths alone are over it, or both names are at most 64 bytes and at most one byte longer than it |
| EditDistance.OverCanBeMore | src/main.c:1686-1717 | two names whose excess is reported as more than that |
| EditDistance.NextRow | src/main.c:1698-1715 | one pass over the row, in place, makes the next row of distances |
| EditDistance.Distance | src/main.c:1687-1717 | the one-row loops compute the recursive distance, with the cut-offs |
| EditDistance.DidYouMean | src/main.c:1720-1751 | the suggestion is the first of the names of at most 64 bytes that are fewest edits away, of at most one edit for a name of up to three bytes and two for others, and none iff there is none |
| VmRuns.CalleeSeesArguments | src/main.c:513-536 | the callee starts with its arguments in its own parameters, empty registers and the globals as they were |
| VmRuns.CallIsRefused | src/main.c:467-536 | a call is refused iff the function is not there, takes another number of arguments, they are not all among 31 registers, or 1024 calls are open |
| VmRuns.StepInStep | src/main.c:461-561 | every instruction keeps one set of variables per open call |
| VmRuns.OpenCallsKeep | src/main.c:461-561 | however long a call runs, the calls below it, their saved registers and their variables stay as they are |
| VmRuns.CallReturns | src/main.c:461-561 | from a call to its return, whatever happens inside: the return stays in the registers iff the call names one of them for its result, and then the other registers, the place, the open calls and all variables of callers are restored, and that register holds the callee's result |
| VmRuns.CallCanFault | src/main.c:513-561 | a program, well formed but for the register that its one call names for the result, that runs into the return which writes outside the registers |
| VmRuns.TryKeepsLocals | src/main.c:1454-1490 | whether a tried call succeeds or fails, in however many calls, all callers' variables are as they were |
| VmRuns.TryReports | src/main.c:1411-1490 | when a `try` cannot be made, when it writes outside the registers, and else that it changes but one register, which says whether the nested run ended well |
| VmRuns.TrySees | src/main.c:1411-1466 | what is tried is the first function of the name in register 0, with the registers behind it for its arguments |
| VmBlocks.JumpGoes | src/main.c:2119-2122 | a jump goes to its target and changes nothing else |
| VmBlocks.JumpIfGoes | src/main.c:62-78 | a conditional jump goes to its target iff the register is null, zero, false or the empty string and it jumps on no, or is none of them and it jumps on yes |
| VmBlocks.OthersStay | src/main.c:2002-2012 | after a load or a computation all other registers and all variables are as they were |
| VmBlocks.StoredIsLoaded | src/ussr.c:1276-1335 | what has been stored is what is loaded, wherever the name lives |
| VmBlocks.OthersAreKept | src/ussr.c:1276-1335 | a store leaves all other names as they were, and goes to the innermost call if the name is local there, else to the globals |
| VmBlocks.StoreThenLoad | src/main.c:2005-2015 | a store and a load from the same place copy one register to another |
| VmBlocks.TestRuns | src/main.c:2119-2122 | a test runs the first of two blocks unless its register is null, zero, false or the empty string, else the second, and goes on behind both; the whole run is the same from there |
| VmBlocks.LoopRuns | src/main.c:2119-2122 | a loop runs its body as long as its test holds, any number of times, and goes on behind it |
| VmBlocks.RunEnds | src/main.c:1950-1999 | a run ends well at a halt, and not well where an instruction fails, where there is none, or when no more may be run |
| Interpreter.Scope.Set | src/ussr.c:1276-1292 | a variable is set in the innermost call if it is local there, else as a global |
| Interpreter.Scope.Get | src/ussr.c:1294-1335 | a variable is read from the innermost call if it is local there, else from the globals |
| Interpreter.Vm.PushFrame | src/main.c:467-511 | the registers move into a frame, and the callee gets variables of its own |
| Interpreter.Vm.Call | src/main.c:513-536 | a call is refused, changing nothing, or made as specified |
| Interpreter.Vm.Return | src/main.c:538-561 | a return is refused, or undoes the call and delivers the result, or has no register to deliver it to |
| Interpreter.Vm.RunTry | src/main.c:1411-1490 | the nested machine runs and is unwound as specified |
| Interpreter.Vm.Run | src/main.c:1950-2714 | the instruction loop in place does what the specification of a run says, within the step limit |
| Conditionals.BlocksRun | src/pp.c:506-668 | nested blocks that fit are passed on as they mean and leave the stack as it was |
| Conditionals.BranchesRun | src/pp.c:506-641 | of a chain at most one branch is passed on: the first that is true, and none under an inactive parent |
| Conditionals.ReadAll | src/pp.c:506-668 | whatever has been accepted so far is blocks and open chains |
| Conditionals.AcceptedExactlyBlocks | src/pp.c:506-668 | the lines accepted to the end are exactly those of blocks no deeper than 32, and what is passed on is what they mean |
| Preprocessor.Preprocessor.Push | src/pp.c:506-540 | `$if` on the three arrays is the step of the stack |
| Preprocessor.Preprocessor.OtherBranch | src/pp.c:593-641 | `$elif` on the arrays is the step of the stack |
| Preprocessor.Preprocessor.LastBranch | src/pp.c:542-589 | `$else` on the arrays is the step of the stack |
| Preprocessor.Preprocessor.Pop | src/pp.c:643-668 | `$endif` on the arrays is the step of the stack |
| Preprocessor.PassesWhatConditionalsSay | src/pp.c:2172-2208 | a file without other files passes on the lines its conditionals choose, and fails iff they are ill formed |
| Preprocessor.PiecesAgree | src/pp.c:2172-2348 | a run over lines and nested files passes on what the conditionals say of the lines that it meets, and fails iff these are ill formed or something stops it |
| Preprocessor.FileIsBlocks | src/pp.c:2172-2348 | a file with all that it includes is read to its end iff nothing stops it and the lines met are those of nested blocks; what is passed on is what they mean |
| Preprocessor.Preprocessor.MapFlush | src/pp.c:74-137 | each newline completed since the last flush gets one entry, with the current file and line |
| Preprocessor.Preprocessor.Locate | src/pp.c:139-168 | there is one entry per newline of the output; line n is located where its newline was passed on; one past the end counts as the last |
| Preprocessor.OneOriginEach | src/pp.c:74-137 | whatever has been passed on, there are as many origins as newlines |
| Preprocessor.OriginOfNewline | src/pp.c:74-168 | the origin of any newline is the file and line whose processing passed it on |
| Preprocessor.RunIsRead | src/pp.c:2233-2349 | all that is passed on of a file and those it includes is words read there, in the order in which they stand, with the file's name and one more than the lines ended before as their line |
| Preprocessor.SourcesComeFrom | src/pp.c:2233-2349 | where such words stand: a piece of the file or of one that it includes |
| Preprocessor.AllComeFrom | src/pp.c:2233-2349 | every text that is passed on comes from where its file and line say |
| Preprocessor.Preprocessor.ProcessLine | src/pp.c:2210-2231 | a typed line is numbered and processed: its words are passed on as those of `<stdin>` and of the next line, and output and map stay in agreement |
| Preprocessor.Preprocessor.ProcessFile | src/pp.c:2233-2349 | a file and all it includes are processed as specified: refused when too deep or circular, all that is passed on located at the file and line it was read from, the includer's numbering restored |

## Left out

- Failing allocation, `free`, the text of error messages and their reporting: memory suffices.
- Regular expressions: wrap-around of the `unsigned` generation counter; the flat array that holds two thread lists is two arrays of threads, with the saved positions of a thread as a sequence.
- RegexPriority.SearchPrefers: one way only. For patterns that repeat without limit what can be empty it is said that one of the ways is found, from the least start, not which; the order of the program, each instruction once at each position, decides.
- RegexVm.Regex.Search: for the pattern the bound has the product of code length with slots and ranges, where the manual (`docs/USSR_USER_MANUAL.md:1080`) speaks of the pattern's size: each thread copies all its slots, and each copy of a class goes through all its ranges.
- RegexNotation.ReadsWhatWasWritten: patterns with one spelling for each construct; redundant spellings, such as an unescaped bracket that needs no escape, are read by the same functions but not written.
- BtreeKeys.CompareIsTotalOrder: keys that are real numbers are left out, since the comparison through `double` is no order on them.
- The B+ tree: the commands from `src/btree.c:632` on, but for the loop of the range; the arrays of a node are sequences of fixed length that are assigned anew, so element-by-element moves inside one node are not interleaved.
- Gc.Collector.Collect: says that refcounts of survivors are unchanged, not that they equal the number of references, since the sweep does not take away the references of garbage to what lives.
- The collector has one class of objects for the three kinds, told apart by a field, and a list of what has been freed in place of freeing; how roots are found is given.
- The generator: words are naturals below 2^64; only the default build is modelled, without the stream cipher and the table of the other builds.
- JSON: the rest of `src/ai.c`, requests and configuration; numbers and names are tokens that are not looked into, as in the code.
- Chunked.ResponseComplete: the chunked branch only; finding the headers, the branch for a given length, sockets and TLS are left out.
- VmRuns.CallReturns: takes programs to end with `HALT`, as both loaders insist (`src/ussr_ru.c:1129`, `src/ussr_uuasm.c:863`). That the register for a result exists is insisted on nowhere; what happens after a write outside the registers is not modelled, the run ends there as faulted.
- Interpreter.Vm.Run: instructions that only compute are one instruction with a given function from the registers; values are null, numbers, booleans and strings, so tests of vectors, instances and trees are not modelled; those that read or change the world outside (external commands, time, files, hashes, evaluated text, preemption and the scheduler) are not modelled, and how deep one `try` may run inside another is a given bound in place of the C stack.
- Globals are a map in place of the hashed table in `src/ussr.c:1140-1230`.
- Preprocessor.Preprocessor.ProcessFile: which file a name finds, what it holds, whether it can be opened, and that it is one to be read only once, are given.
- The preprocessor: whether a condition holds and how macros expand are given; a line that fails passes nothing on.
- Schedulers, processes, foreign calls, graphics, the terminal editor, history and completion: input and output, or tables.
- `src/eventq.c`, `src/alias.c` and `src/keybind.c`: they would add only easy members.
