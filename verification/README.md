# Call-stack trees: a verified model

`StackTrace.cpp` gathers the call stacks of many threads and many MPI ranks into one tree
(`multi_stack_info`). The tree is built in place, packed into bytes, shipped to another rank, merged,
cleaned, printed and parsed back. This project models those operations and proves what they promise to
one another.

| files | subject |
|---|---|
| `Frames`, `Strings`, `Trees` | the frame record and its equality, C strings, the value of a tree |
| `Trie`, `TrieCounts`, `TrieGroups` | inserting stacks, merging trees, what the counts mean |
| `Wire`, `WireLayout` | the byte layout of a packed tree |
| `Collection`, `CollectionSteps` | requesters and monitors as a state machine over the messages in flight |
| `Cleaning`, `CleaningShape`, `CleaningFixed`, `CleaningTwice` | `cleanupStackTrace`: shape, fixed points, second pass |
| `CleaningPaths`, `CleaningOrder`, `CleaningLoss` | `cleanupStackTrace`: paths |
| `CleaningCounts`, `CleaningRebuild` | `cleanupStackTrace`: counts, rebuilding |
| `CleaningTexts` | `cleanupStackTrace`: what the texts of a frame decide |
| `Text`, `NumberTexts`, `Printer`, `PrinterMarks` | numbers and printed lines |
| `Hierarchy`, `HierarchyLaws`, `Parser`, `ParserLaws` | `parseLine` and `generateFromString` |
| `LineFields`, `LineRoundTrip`, `RoundTrip`, `Reprint` | printing and parsing undo each other |
| `Hashing`, `Batching` | `hashString`, `objHash`, `staticVector`, `getFileAndLine` |
| `Rewriting`, `RewritingTexts` | `replace`, `strrep`, `findMatching`, the `basic_string` loop |
| `MultiStack`, `EndToEnd` | the in-place operations on the record, and the operations that join the parts |

## How to read it

- Operations that change state in the source are methods: `MultiStackInfo`, `StaticVector` and `Forest`
  are classes, buffers and names are `array<char>`, loops are loops. Each method is tied to a function of
  the old state (`InsertKids`, `Merge`, `Encode`, `Clean`, `PrintLines`, ...), and the laws are lemmas about
  these functions.
- A vector of children is a `seq<Tree>` held by value, as in the source. To call an operation on a child
  the model loads the child into an object, calls it, and stores the value back. `*it = it->children[0]`
  is the copy of a value.
- Frame equality is an OR of two tests and not transitive (`Frames.SameNotTransitive`). `Coherent(S)` says that
  it is an equivalence on the frames of `S`; `Frames.CoherentExactly` gives the exact condition,
  `Frames.AddressDeterminesCoherent` the usual reason for it, and `Frames.ResolvedCoherent` says that the frames
  one process resolves always satisfy it. Results that need it name it. It is exactly what is needed for merging
  (`Trie.MergeIsBuildExactly`; without it a frame may be counted under two siblings) and for cleaning to keep
  paths in order (`CleaningOrder.KeepsOrderExactly`).
- `keep` is an arbitrary predicate on frames; the contributor test and the libc `fgets` test are concrete.
- Resolving an address is an arbitrary function of the address.
- In the protocol, messages are delivered in any order, a call may time out at any moment, and a monitor
  may answer late or never.

## What turned out

- A cleaned tree may change when cleaned again. An unwanted frame with two unwanted children is kept while
  the children go (`CleaningFixed.CleanTwiceDiffers`), and a libc `fgets` may take over the children of an
  equal frame that is none (`CleaningTwice.CleanTwiceFgets`). A second pass changes nothing exactly when no
  unwanted frame is left with at most one child and no libc `fgets` with any (`CleaningFixed.CleanTwiceExactly`).
  Told from the tree before cleaning: it changes nothing if no unwanted frame has more than one child and equal
  frames agree on being libc's `fgets` (`CleaningTwice.CleanTwiceSame`).
- A rank that draws a tag again while a late reply to it is in flight can count one peer twice, miss another,
  and believe the collection complete (`Collection.ReusedTagMiscounts`). As long as a call is not opened again,
  its accounts are out by just the messages of its rank and tag that were in flight when it was opened, so they
  are right exactly when there were none (`Collection.AccountsExactly`). What tags other calls draw does not
  matter.
- `replace` on a range inside the string does what it should exactly when the replacement is not longer
  than what it replaces (`Rewriting.Replace`). Its last loop, meant to clear the rest of the old string, writes
  one place over and over (StackTrace.cpp:105-106), so only one NUL follows the new string and old characters
  stay behind it (`Rewriting.LeftBehind`). Everything up to the old end is NUL exactly when the string got
  shorter by at most one character (`Rewriting.ClearedExactly`). Read as a C string the result is right all
  the same (`Rewriting.ReplacedCStr`), and `strrep` and the `basic_string` loop keep that.
- The tests for `char16_t` and `char32_t` are never reached, since `char` is tried first
  (`Rewriting.WideNeverReached`): such strings are abbreviated to `std::string`.
- A printed line is read back field by field if and only if its texts can be told apart and `strtol` can hold
  the address (`LineRoundTrip.FrameSeparable`, `LineFields.Separable`, `LineRoundTrip.FrameReadsExactly`). The
  address must be below 2^63, object and function must have no double blank, the file no colon. With a function:
  if the object is missing, the file name must have no double blank; if the object has one or two characters,
  there must be a file. Without a function: there must be no file, and the object must be missing or have three
  characters or more. A line with an object of one or two characters and no file, for instance, reads back
  without its object (`LineRoundTrip.ShortObjectLost`). A whole tree comes back exactly when each of its frames
  does (`RoundTrip.FullRoundTrip`); shape, order and counts always do. Object and file are meant as printed,
  without their paths. Texts with line breaks, with blanks at their ends or without room for a NUL, a file name
  that ends in a separator, line numbers without a file, and line numbers from 2^31 on (where `atoi` is
  undefined) are outside the theorem (`LineRoundTrip.TextFrame`).
- The forest below the root comes back as the whole forest exactly when the root has no address
  (`RoundTrip.RootExactly`), as in every tree of `generateMultiStack`. A root with an address is printed and
  comes back one level down, as the only child of an empty root (`RoundTrip.RootReads`, `RoundTrip.RootLost`).
- `generateFromString` takes the last element of an empty vector exactly when its first line with an address is
  indented (`Hierarchy.GenerateHierarchy`). Text printed behind a nonempty prefix of bars and blanks is of this kind,
  such as that of `abort_error` with its prefix of one blank, StackTrace.cpp:2338 (`RoundTrip.TextStands`,
  `RoundTrip.BlankPrefixUndefined`).
- A call that has not returned can still be completed exactly when no monitor dropped its request, and for that no
  other call need move (`CollectionSteps.CompletableExactly`).
- Frames are handed to `addr2line` in lists of one hash key. Objects whose names or paths differ in one character
  never share a list (`Batching.GetFileAndLine`); two characters are enough for the same hash
  (`Hashing.HashCollides`).
- Nothing the protocol says about messages and calls depends on frame equality; only that a collected tree is
  one build over all stacks does, and that holds whatever tags are drawn.

## Model

| member | source | states |
|---|---|---|
| Frames.CoherentExactly | StackTrace.cpp:326-333 | Frame equality is an equivalence on a set of frames if and only if no frame of the set is joined to one neighbour only by address and to another only by second address and object |
| Frames.AddressDeterminesCoherent | StackTrace.cpp:326-333 | Equality is an equivalence where the address determines the second address and the object |
| Frames.ResolvedCoherent | StackTrace.cpp:1197-1206 | Frames that are a function of their own address, as within one process, compare coherently |
| Frames.SameNotTransitive | StackTrace.cpp:326-333 | In general equality is not transitive: three frames that show it |
| MultiStack.MultiStackInfo.AddStack | StackTrace.cpp:490-508 | `add( len, stack )` in place: the children become those of inserting the path, outermost frame first; count and frame of the node itself stay |
| MultiStack.AddedPath | StackTrace.cpp:490-508 | After adding a stack, given innermost frame first, there is a path from the top down whose frames equal those of the stack read backwards, whatever the frames |
| MultiStack.MultiStackInfo.AddTree | StackTrace.cpp:509-523 | `add( rhs )` in place gives the merge of both values |
| MultiStack.MultiStackInfo.MergeChild | StackTrace.cpp:512-522 | One child of `rhs` is merged into every equal child, or appended when there is none |
| MultiStack.MultiStackInfo.Clear | StackTrace.cpp:413-418 | `clear` leaves the empty tree |
| MultiStack.GenerateStacks | StackTrace.cpp:1177-1209 | Through the table of distinct addresses, every entry of every trace becomes the frame of its own address |
| MultiStack.FindAddress | StackTrace.cpp:1181-1187 | Finds an index of the address, or -1 exactly when it is not in the table |
| MultiStack.GenerateMultiStack | StackTrace.cpp:1210-1221 | The tree of the resolved traces, with the number of traces at the root; every trace that is not empty is a path of it from its last address down to its first, up to frame equality |
| MultiStack.TraceCounts | StackTrace.cpp:1210-1221 | On coherent frames each node below the root counts the traces whose last entry resolves to an equal frame, and the nodes stand in the order in which such traces first come |
| Trie.InsertDistinct | StackTrace.cpp:490-508 | Inserting a stack keeps siblings different at all depths, whatever the frames |
| Trie.MergeInsert | StackTrace.cpp:490-523 | Inserting a stack into the second operand and then merging equals merging and then inserting it |
| Trie.MergeIsBuild | StackTrace.cpp:490-523 | Merging the trees of two lists of stacks gives exactly the tree built from both lists: counts, representative frames and order of children |
| Trie.MergeIsBuildExactly | StackTrace.cpp:490-523 | That holds for all lists of stacks over a set of frames if and only if equality is an equivalence on the set |
| Trie.BridgeCounted | StackTrace.cpp:512-521 | Two different frames and one that equals both: merging counts the third under both, building under the first only |
| TrieCounts.InsertCount | StackTrace.cpp:490-508 | Adding a stack raises by one exactly the counts along it |
| TrieCounts.BuildCount | StackTrace.cpp:1215-1220 | The count at every nonempty path is the number of stacks whose outermost frames are that path; the surplus of a node over its children is the number of stacks that end there |
| TrieCounts.BuildRoot | StackTrace.cpp:1216-1219 | The root counts all stacks, and its surplus over its children is the number of empty ones |
| TrieGroups.BuildIsGrouped | StackTrace.cpp:490-508 | On coherent frames the children of a built tree are the outermost frames, each once and in the order in which they first appear; each counts the stacks that start with an equal frame and has the tree of what remains of them below it |
| TrieGroups.BuildPath | StackTrace.cpp:490-508 | Every stack that is not empty is a path of the built tree up to frame equality, whatever the frames |
| TrieCounts.MergeCount | StackTrace.cpp:509-523 | Merging adds the counts of every path |
| Trie.MergeDistinct | StackTrace.cpp:509-523 | Merging keeps siblings different at all depths, whatever the frames |
| TrieCounts.BuiltExactly | StackTrace.cpp:490-508 | A tree comes from some list of stacks if and only if its siblings differ at all depths and every count is positive and at least the sum of its children's; the stacks can be read off such a tree and build it again |
| TrieCounts.MergeReadsBack | StackTrace.cpp:509-523 | Merging two well-formed trees is building from the stacks read off both |
| TrieCounts.MergeAssociative | StackTrace.cpp:509-523 | Merging well-formed trees is associative |
| TrieCounts.MergeAllIsBuild | StackTrace.cpp:1840-1844 | Merging replies one after another builds the tree of all their stacks in order of arrival |
| TrieCounts.GlobalIsBuild | StackTrace.cpp:1861-1867 | Local tree merged with the merged replies equals one build over the local and then the remote stacks |
| TrieCounts.ArrivalOrder | StackTrace.cpp:1833-1844 | Replies that arrive in another order give the same counts at all paths and at the root |
| MultiStack.Memcpy | StackTrace.cpp:534-539 | Copies the bytes to their place and changes nothing else |
| MultiStack.MultiStackInfo.Size | StackTrace.cpp:524-530 | `size` is 520 bytes for every node of the tree |
| MultiStack.MultiStackInfo.Pack | StackTrace.cpp:531-542 | `pack` writes exactly the encoding at the pointer, returns the pointer past it, and touches nothing outside |
| MultiStack.MultiStackInfo.Unpack | StackTrace.cpp:544-557 | From the encoding of a tree, followed by anything, `unpack` rebuilds that tree and returns the pointer just past it, whatever the object held before |
| MultiStack.MultiStackInfo.UnpackKids | StackTrace.cpp:553-555 | The loop over the resized children replaces all of them by the packed ones |
| Wire.IntRoundTrip | StackTrace.cpp:531-549 | A count within `int` reads back from its four bytes |
| Wire.FrameRoundTrip | StackTrace.cpp:382-391 | The memory image of a frame reads back as the frame |
| Wire.EncodeLength | StackTrace.cpp:524-542 | The encoding has as many bytes as `size` says |
| Wire.EncodePrefixFree | StackTrace.cpp:531-557 | If two encodings with anything behind them are the same bytes, the trees are the same and so is what is behind them |
| WireLayout.Layout | StackTrace.cpp:382-542 | By byte number: the count in two's complement at 0, line, addresses and texts of the frame at 4, 12, 20, 28, 84, 132, 196 and 260, the number of children at 516, all numbers little-endian, and child `j` at 520 times the number of nodes before it |
| EndToEnd.PackReply | StackTrace.cpp:1733-1738 | The buffer a monitor sends holds exactly the encoding of the tree of its threads |
| EndToEnd.MergeReply | StackTrace.cpp:1840-1843 | Unpacking a reply and merging it merges the tree that was packed |
| EndToEnd.GetGlobalCallStacks | StackTrace.cpp:1826-1867 | From local traces and packed replies to the local tree with all replies merged in order of arrival, whatever the frames; on coherent frames that is the one tree built from all their stacks |
| Collection.StartExactly | StackTrace.cpp:1810-1825 | The accounts of a newly opened call are out by the messages of its rank and tag in flight, for each peer and in all, and right if and only if there are none |
| Collection.AccountsExactly | StackTrace.cpp:1810-1850 | The same in every state that follows, from any state on and whatever other calls do, as long as the call is not opened again |
| Collection.FreshIsQuiet | StackTrace.cpp:1812-1813 | No message is in flight with a tag the rank has not used before, whatever tags other calls drew |
| Collection.StepKeepsSane | StackTrace.cpp:1715-1850 | Every step of every rank, for any number of concurrent calls, any tags and any frames, keeps: requests bear the request tag and only they, replies hold the packed tree of what was served, and each call's tree is the merge of the replies it took |
| Collection.StepKeepsAccounts | StackTrace.cpp:1715-1850 | Every step, whatever tags other calls draw, keeps the accounts of a call right unless it opens that call on a tag with messages in flight: each peer is in one place (not asked, in flight, merged or dropped), and what the peers served for the call was merged or is in flight |
| Collection.RunKeepsSane | StackTrace.cpp:1715-1850 | The first of these holds in every state of every run |
| Collection.RunKeepsAccounts | StackTrace.cpp:1715-1850 | The second holds in every state of every run in which this call is opened only when no message of its rank and tag is in flight |
| Collection.Conservation | StackTrace.cpp:1715-1850 | In every state of every run in which this call was opened with no message of its rank and tag in flight, whatever the frames and the other calls: peers not yet asked, requests and replies in flight, replies merged and requests dropped add up to size - 1, no peer is merged twice, and only what the peers served is merged |
| Collection.CompleteCall | StackTrace.cpp:1826-1844 | In the same runs, when the counter reaches the number of ranks, every peer was merged exactly once, just what the peers served for the call, nothing of it is left in flight, and its tree is the merge of the peers' trees in order of arrival; on coherent frames it is the tree built from the stacks they served |
| Collection.GlobalCallStacks | StackTrace.cpp:1861-1867 | On coherent frames, in every state of every run and whatever tags are drawn, adding a call's tree to the local one gives one build over the local stacks and then those merged so far; if the call was opened with no message of its rank and tag in flight, these are among those the peers served for it |
| Collection.NoConfusion | StackTrace.cpp:1719-1727 | In every state of every run, whatever the tags and frames: what arrives with the request tag is a request, and what arrives with a drawn tag is a readable reply |
| Collection.ReplyDetermined | StackTrace.cpp:1737-1841 | The bytes of a reply determine the tree in it |
| Collection.TreeRead | StackTrace.cpp:1840-1841 | A tree read from the bytes of a reply is the one built from the stacks it was made from |
| Collection.ReusedTagMiscounts | StackTrace.cpp:1812-1844 | A run with a reused tag that ends complete with one peer merged twice and another never |
| CollectionSteps.Possible | StackTrace.cpp:1715-1850 | In every sane state, whatever else is going on, any rank may open a call on a tag whose earlier call has returned, every request in flight may be served or dropped, every reply to a receiving call that still counts may be received, and no call is stuck |
| CollectionSteps.CompletableExactly | StackTrace.cpp:1810-1850 | A call with right accounts that has not returned can still count all replies if and only if none of its requests was dropped, and no other call need move for it |
| CollectionSteps.RunCompletable | StackTrace.cpp:1810-1850 | The same in every state of every run that opens the call on quiet tags only |
| MultiStack.CleanupStackTrace | StackTrace.cpp:2107-2161 | `cleanupStackTrace` in place, erasing, splicing and merging through one iterator, terminates on every tree and computes `Clean`; the node itself stays |
| MultiStack.EraseOrSplice | StackTrace.cpp:2112-2141 | First half of the loop body: what is before the iterator stays, and the child is erased, trimmed, replaced by its only child, or retained |
| MultiStack.CleanAndMerge | StackTrace.cpp:2142-2159 | Second half of the loop body: the child is cleaned, then merged into equal earlier ones or passed |
| MultiStack.MergeIntoEarlier | StackTrace.cpp:2145-2154 | Every equal earlier child takes count and children over and is cleaned again; the others stay |
| Cleaning.CleanLoop | StackTrace.cpp:2111-2160 | The result is never higher than what was done and what was left; the measure (height, nodes left) falls at every turn and in every re-cleaning |
| CleaningTexts.CleanSingle | StackTrace.cpp:2112-2141 | For any single tree: it goes if its file is `StackTrace.cpp` and its function has one of the three names in it or no '('; if the object has `libc.so` and the function `fgets` in it, all below goes first; then an unwanted frame goes if nothing is left below it, or leaves the one tree below it with that tree's own count; any other frame stays |
| CleaningTexts.LeafFate | StackTrace.cpp:2112-2141 | A wanted leaf goes if and only if its file is `StackTrace.cpp` and its function has one of the three names in it or no '(' |
| CleaningTexts.SignalHandlerGoes | StackTrace.cpp:2117-2124 | A frame for the first name |
| CleaningTexts.CollectorGoes | StackTrace.cpp:2117-2124 | A frame for the second name |
| CleaningTexts.BacktraceGoes | StackTrace.cpp:2117-2124 | A frame for the third name |
| CleaningTexts.NoBracketGoes | StackTrace.cpp:2117-2124 | A frame of that file without '(' |
| CleaningTexts.MonitorStays | StackTrace.cpp:2117-2124 | A frame of that file that passes all four tests stays |
| CleaningTexts.OtherFileStays | StackTrace.cpp:2116-2124 | A frame of another file stays without '(' |
| CleaningTexts.FgetsTrimmed | StackTrace.cpp:2126-2130 | A libc `fgets` loses its child |
| CleaningTexts.PutsNotTrimmed | StackTrace.cpp:2126-2130 | Another function of libc keeps it |
| CleaningTexts.OtherObjectNotTrimmed | StackTrace.cpp:2126-2130 | An `fgets` of another object keeps it |
| CleaningTexts.SplicedCount | StackTrace.cpp:2131-2141 | A child that takes the place of its unwanted parent keeps its own count |
| CleaningShape.CleanIsClear | StackTrace.cpp:2107-2161 | At every depth of the result siblings differ and no contributor frame is left, also in children cleaned again after a merge, whatever the frames |
| CleaningShape.CleanConserves | StackTrace.cpp:2130-2158 | If every count is at least the sum of its children's and none is negative, that still holds, and the total of the children's counts does not grow |
| CleaningFixed.FixedExactly | StackTrace.cpp:2107-2161 | Whatever the frames, cleaning returns a forest unchanged if and only if there is nothing to erase, trim, splice or merge in it |
| CleaningFixed.CleanNodes | StackTrace.cpp:2107-2161 | On coherent frames cleaning never adds a node, and loses one unless there was nothing to do |
| CleaningFixed.CleanTwiceExactly | StackTrace.cpp:2130-2141 | Whatever the frames, a second pass changes nothing if and only if the first left no unwanted frame with at most one child and no libc `fgets` with any |
| CleaningFixed.CleanTwiceDiffers | StackTrace.cpp:2130-2141 | A tree that a second pass changes: an unwanted frame that lost its two children |
| CleaningTwice.CleanTwiceSame | StackTrace.cpp:2107-2161 | If no unwanted frame of the input has more than one child, once children of a libc `fgets` are gone, and equal frames agree on being libc's `fgets`, a second pass changes nothing and only wanted frames are left, whether or not equality is transitive |
| CleaningTwice.MergedIntoFgets | StackTrace.cpp:2125-2154 | A libc `fgets` takes over the child of an equal frame that is none, and loses it in a second pass |
| CleaningTwice.CleanTwiceFgets | StackTrace.cpp:2125-2154 | Coherent frames of that kind exist, so the condition on `fgets` is needed |
| CleaningPaths.CleanKeepsOrder | StackTrace.cpp:2107-2161 | On coherent frames every root-to-node path of the result is, up to frame equality, a subsequence of a root-to-node path of the input |
| CleaningOrder.KeepsOrderExactly | StackTrace.cpp:2107-2161 | Over wanted frames that are neither contributors nor libc's `fgets`, that holds for all trees if and only if equality is an equivalence on the frames |
| CleaningOrder.BridgedDisorder | StackTrace.cpp:2142-2158 | A tree over three such frames on which equality is not transitive, and a path of the result that comes from none of the input |
| CleaningLoss.CleanLosesNothing | StackTrace.cpp:2107-2161 | Conversely, on coherent frames whose equality respects being wanted and being libc's `fgets`: the wanted frames of every path of the input that has no contributor and does not go below a libc `fgets` are, up to frame equality, a subsequence of a path of the result |
| CleaningCounts.CleanCanonicalises | StackTrace.cpp:2107-2161 | With nothing to remove and whatever the frames, siblings become different, a tree is unchanged exactly when its siblings already differ, and a second pass changes nothing |
| CleaningCounts.CleanKeepsCounts | StackTrace.cpp:2142-2158 | With nothing to remove, on coherent frames, the count of every path and the total stay |
| CleaningRebuild.CleanRebuilds | StackTrace.cpp:2107-2161 | With nothing to remove, counts that flow and coherent frames, cleaning gives exactly the tree built again from the stacks read off: counts, representative frames and order of children |
| CleaningRebuild.AbsorbMerges | StackTrace.cpp:2144-2158 | Then merging a cleaned child into earlier ones is what `add` does |
| CleaningRebuild.CleanIsMerge | StackTrace.cpp:2107-2161 | Then cleaning two well-formed lists of children put one after the other is merging them with `add` |
| EndToEnd.CleanCollected | StackTrace.cpp:2331-2336 | In a collected tree that was cleaned siblings differ, and with nothing to remove it is as collected, whatever the frames; on coherent frames its counts still flow and none are made |
| Text.DecimalReads | StackTrace.cpp:2254-2254 | `stoi` reads back what `%i` writes, for every `int` |
| Text.PaddedReads | StackTrace.cpp:2177-2177 | `strtol` reads back a number written with any number of leading zeros, in base 10 and 16, up to its largest value, which it gives for any larger one |
| NumberTexts.NumberReads | StackTrace.cpp:2177-2254 | `strtol` and `stoi` skip white space, take a sign and read the digits up to the first other character; `strtol` saturates, `stoi` throws outside `int` |
| NumberTexts.NoNumber | StackTrace.cpp:2254-2254 | Without a digit there `stoi` throws |
| MultiStack.MultiStackInfo.Print2 | StackTrace.cpp:419-436 | Although all calls write into one `prefix` buffer, the lines are those of the pure printer, nothing below `Np` changes, and writes stay in bounds when twice the height fits |
| MultiStack.MultiStackInfo.Print2Kids | StackTrace.cpp:431-435 | The same for the loop over the children |
| MultiStack.MultiStackInfo.PrintString | StackTrace.cpp:455-468 | The text is the pure lines, each with a line break |
| Printer.LineOfNode | StackTrace.cpp:419-436 | The line of every printed node is at its place in the preorder and starts with the prefix and one guide for each printed ancestor |
| PrinterMarks.MarkOfAncestor | StackTrace.cpp:419-436 | In that line, two characters belong to each printed ancestor, the `k`-th from the top: character `2 * k` behind the prefix is a bar if and only if a sibling follows the ancestor and its parent is printed, else a blank, and the next is a blank |
| PrinterMarks.WidthExactly | StackTrace.cpp:338-475 | The address column is the narrowest of 4, 8, 12 and 16 digits that holds every address of the tree |
| PrinterMarks.PlaceTexts | StackTrace.cpp:364-380 | File and line, a file alone, a line alone, and neither, as printed |
| PrinterMarks.ExampleLine | StackTrace.cpp:424-426 | The first line of the library's example, character by character |
| Printer.LineFits | StackTrace.cpp:424-426 | No line, with its prefix, overruns the buffer of 4096 characters |
| Hierarchy.Forest.PushBack | StackTrace.cpp:2267-2269 | Appending to a list, through a pointer that does not dangle, invalidates the pointers to what lies inside it and no others; those that stay valid still point to lists |
| Hierarchy.Forest.ChildrenOfLast | StackTrace.cpp:2270-2270 | A pointer to the children of the last element of a list that is not empty |
| Hierarchy.Pop | StackTrace.cpp:2264-2265 | Entries with a larger indent go, the others stay |
| Hierarchy.SummaryOn | StackTrace.cpp:2259-2272 | `map` keeps strictly increasing indents, and each entry's list still ends with the line it stands for |
| Hierarchy.OnSpineOn | StackTrace.cpp:2259-2272 | The pointers in `map` stay exactly those to the lists of the rightmost spine |
| Hierarchy.AppendNext | StackTrace.cpp:2266-2271 | A line goes to the right list of the spine through a pointer that does not dangle |
| Hierarchy.GenerateHierarchy | StackTrace.cpp:2259-2273 | For all lines: `back()` of an empty vector is taken if and only if the first indent is not 0; otherwise preorder of the result is line order and each node's parent is the nearest earlier line with a smaller indent |
| HierarchyLaws.ForestOfUnique | StackTrace.cpp:2259-2273 | No other forest meets that specification |
| HierarchyLaws.OwnIndentation | StackTrace.cpp:419-2273 | A forest is the one its own lines stand for, indented two columns a level |
| Parser.CopyField | StackTrace.cpp:2212-2217 | The field holds the text as far as it fits, with blanks at its end cleared |
| ParserLaws.FieldExactly | StackTrace.cpp:2212-2217 | Each character of the field: that of the text, if one from there on is within the field and neither blank nor NUL, or if it is the first one; else NUL |
| Parser.FindFields | StackTrace.cpp:2186-2210 | The pointers to the fields are those of `Split`, also when the object is missing |
| Parser.ParseLine | StackTrace.cpp:2167-2224 | `parseLine` computes `LineFrame` for every text with an address |
| ParserLaws.CountOne | StackTrace.cpp:2247-2254 | A line counts 1 if its first '[' does not come before its first ']' or not before its first 'x' |
| ParserLaws.CountBetween | StackTrace.cpp:2253-2254 | Otherwise it counts the number between the brackets |
| ParserLaws.IndentExactly | StackTrace.cpp:2256-2256 | It is indented up to the '[', or up to the character before the 'x' if that comes first |
| ParserLaws.NoBracket | StackTrace.cpp:2247-2256 | A kept line without '[' gives a node with count 1, indented up to the character before its 'x' |
| Parser.GenerateFromLines | StackTrace.cpp:2240-2274 | It throws exactly when some count cannot be read; otherwise it is undefined exactly when the first line kept is indented; otherwise the tree stands for the lines that are kept |
| ParserLaws.StandsOnes | StackTrace.cpp:2240-2274 | In a tree that stands for lines of which no kept one has a '[', every node below the root has count 1 |
| Parser.GenerateFromString | StackTrace.cpp:2225-2239 | The same for the lines of one text |
| LineFields.FieldsFound | StackTrace.cpp:2180-2210 | For a line laid out as the printer does it, with any of object, function and file missing, the pointers are those of the printed fields if the texts can be told apart; otherwise a missing field gets a text, or a field does not get all of its own |
| LineRoundTrip.FrameReadsExactly | StackTrace.cpp:364-2224 | `parseLine` of the text of a frame, at any address width, is the printed part of the frame if and only if its texts can be told apart and its address is below 2^63 |
| LineRoundTrip.ShortObjectLost | StackTrace.cpp:2197-2202 | A frame with an object of one character and no file, whose line does not read back |
| RoundTrip.LineReadsBack | StackTrace.cpp:2246-2257 | A printed line, with its guides, reads back as a leaf with the count and the indent of its node and the frame as reread |
| RoundTrip.TreeReads | StackTrace.cpp:419-2258 | The lines of a tree read back as its nodes in preorder, indented two columns a level |
| RoundTrip.SplitJoined | StackTrace.cpp:2227-2236 | Splitting the joined text at line breaks gives the lines and an empty rest |
| RoundTrip.KidsExactly | StackTrace.cpp:364-2274 | A forest is reread as its printed part if and only if each of its frames is |
| RoundTrip.TextStands | StackTrace.cpp:364-2274 | The text of any tree, behind a prefix of bars and blanks, can be read line by line; one forest stands for its lines; and the first line is not indented if and only if the prefix is empty or nothing was printed |
| RoundTrip.BlankPrefixUndefined | StackTrace.cpp:2338-2338 | A tree whose text behind one blank starts with an indented line |
| RoundTrip.FullRoundTrip | StackTrace.cpp:364-2274 | The text of a tree whose root has no address can be parsed; a tree stands for its lines if and only if it is the reread forest, of the same shape, order and counts; and that has all printed fields if and only if every frame can be told apart |
| RoundTrip.RootReads | StackTrace.cpp:364-2274 | A tree stands for the text of a tree whose root has an address if and only if it is an empty root with the reread tree as only child |
| RoundTrip.RootExactly | StackTrace.cpp:364-2274 | The forest below the root stands for the text if and only if the root has no address |
| RoundTrip.RootLost | StackTrace.cpp:422-430 | A tree with an address at the root, whose text the forest below the root does not stand for |
| EndToEnd.PrintThenParse | StackTrace.cpp:364-2274 | `generateFromString( printString( prefix ) )`, for a prefix of bars and blanks, is undefined if and only if the prefix is not empty and something was printed; otherwise it does not throw and returns the forest in shape, order and counts under an empty root, with all printed fields if and only if every frame can be told apart, or, when the root has an address, the whole tree one level down |
| Reprint.PrintsAgain | StackTrace.cpp:364-2274 | Printing what was parsed from the text of such a tree gives the same text |
| Batching.KeyInjective | StackTrace.cpp:138-146 | Keys fit 64 bits and are equal exactly when both hashes are |
| Batching.KeyExactly | StackTrace.cpp:127-146 | Frames with the same object and path texts, up to the first NUL, have the same key; keys are the same if and only if both hashes are |
| Hashing.MixInjective | StackTrace.cpp:130-135 | A step is injective in the hash and in the character |
| Hashing.HashDiffers | StackTrace.cpp:127-137 | Texts that differ in one character only have different hashes |
| Hashing.HashSame | StackTrace.cpp:127-137 | Nothing behind the first NUL counts |
| Hashing.HashValues | StackTrace.cpp:127-137 | The hashes of the empty text, of a letter, and of a byte that is a negative `char` |
| Hashing.HashCollides | StackTrace.cpp:127-137 | Two texts of two characters with the same hash |
| Batching.StaticVector.PushBack | StaticVector.h:27-31 | Appends, or does nothing when the vector is full |
| Batching.StaticVector.Clear | StaticVector.h:41-41 | Leaves the vector empty |
| Batching.StaticVector.Resize | StaticVector.h:42-49 | Fails exactly beyond the capacity; otherwise cuts or fills |
| Batching.StaticVector.Erase | StaticVector.h:50-58 | Removes all occurrences and keeps the order of the rest |
| Batching.StaticVector.FindIndex | StaticVector.h:66-69 | The first occurrence, or the size |
| Batching.StaticVector.Sort | StaticVector.h:63-63 | Sorts in place |
| Batching.StaticVector.Insert | StaticVector.h:59-65 | Adds an element that is not there, if there is room, and sorts |
| Batching.SortedSeqSorts | StaticVector.h:63-63 | Sorting gives an ordered permutation |
| Batching.InsertedKeeps | StaticVector.h:59-65 | `insert` keeps the vector sorted and free of duplicates, adds just the new element, and never exceeds the capacity |
| Batching.CollectKeys | StackTrace.cpp:835-838 | The list of hashes is sorted, without duplicates, and holds exactly the hashes of the frames passed over; at least one frame is passed |
| Batching.HandOver | StackTrace.cpp:841-850 | The frames of one object are handed over in order, behind what was handed over before, in lists of 256; only the last list may be shorter |
| Batching.GetFileAndLine | StackTrace.cpp:830-854 | It terminates and hands over every frame exactly once, in lists of 1 to 256 frames with one key; two frames with the same path whose objects differ in one character, or the other way round, are never in one list |
| Rewriting.Replace | StackTrace.cpp:95-108 | For a range in the string: the result is prefix, replacement and suffix if and only if the replacement is not longer; then one NUL follows when the string got shorter, and all else in the buffer is as before |
| Rewriting.ClearedExactly | StackTrace.cpp:105-106 | For a replacement that is not longer, everything between the new end and the old one is NUL if and only if the string got shorter by at most one character |
| Rewriting.LeftBehind | StackTrace.cpp:105-106 | An input that leaves old characters behind the NUL |
| Rewriting.ReplacedCStr | StackTrace.cpp:95-108 | A C string in the buffer is a C string afterwards, namely prefix, replacement and suffix |
| Rewriting.StrRep | StackTrace.cpp:115-124 | For a shorter replacement: it terminates, replaces leftmost occurrences first and leaves none; what was a C string still is one, and the whole buffer is the one that so many replacements leave |
| Rewriting.FindMatching | StackTrace.cpp:1873-1885 | From one open bracket at `pos`, the first later index at which none is open, or the end; at or past the last character, the next index |
| Rewriting.MatchingExists | StackTrace.cpp:1873-1885 | On an angle-balanced name that index lies just past the matching '>' |
| Rewriting.SplicedBalanced | StackTrace.cpp:1978-1985 | Replacing a bracket and its name by a text without brackets keeps the name balanced |
| Rewriting.WideNeverReached | StackTrace.cpp:1978-1985 | The branches for `char16_t` and `char32_t` are never taken |
| RewritingTexts.AbbreviatedOne | StackTrace.cpp:1967-1987 | A name with one `basic_string`, whose argument list is balanced: a list that starts with `char` makes it `std::string`, one that starts with `wchar_t` makes it `std::wstring`, and any other list without brackets leaves the name as it is; the rest of the name stays |
| Rewriting.AbbreviationUpToEnd | StackTrace.cpp:1978-1984 | The comparisons read the buffer, but nothing behind the end of the C string |
| Rewriting.AbbreviateBasicString | StackTrace.cpp:1967-1987 | On every C string the loop terminates and replaces each `basic_string` that has an abbreviation, from left to right; the name is never longer and stays a C string, nothing to abbreviate is left, and an angle-balanced name stays balanced |

## Left out

- Acquiring stacks and symbols (`backtrace_thread`, `dladdr`, `nm`, `addr2line`, `atos`, DbgHelp): operating
  system and foreign calls; resolving an address is an arbitrary function, and what `getFileAndLineObject` does
  with a batch is not modelled.
- Signal, terminate, exception and MPI error handlers, memory usage, environment, clocks and sleeping: wrappers
  over the platform.
- `keep` (StackTrace.cpp:2019-2106): an arbitrary predicate on frames; its string tests are not listed.
- MPI: messages carry source, destination, tag and body. Failing probes end a call like a time-out. A delivery
  in order per pair of ranks is not assumed.
- Two simultaneous calls of one rank that draw the same tag: calls are identified by rank and tag, so the second
  one is not represented; a later call with the same tag is.
- `globalMonitorThreadStatus`, the early returns of `getRemoteCallStacks`, and stopping the monitors: a monitor
  that is stopped is one that never takes another step.
- Collection.Enabled: a reply's tree fits the wire format; a tree that does not is not sent in the model. What
  monitors serve and drop is booked on the call, which does not influence any step.
- Counts are unbounded integers; the range of `int` is a condition where they are packed or parsed.
- MultiStack.MultiStackInfo: children are held by value, so a reference to a child that outlives a change of the
  vector is not represented. Parsing, where the source keeps such pointers, models them as paths with a set of
  those still valid.
- MultiStack.MultiStackInfo.Unpack: bytes that no `pack` wrote are not covered; the source does not check them
  either.
- Wire.FrameBytes: the record is laid out as on a 64-bit little-endian machine; `memcpy` also copies four bytes
  of padding, which the model takes to be zero.
- MultiStack.MultiStackInfo.Print2: `sprintf` to `line` is a string; that the line fits is Printer.LineFits. The
  column widths for object and function are the constants that the formulas at StackTrace.cpp:476-489 always
  give.
- Printing to a vector of lines or to a stream: both call the same `print2` with another sink.
- EndToEnd.PrintThenParse: a prefix of bars and blanks, and a tree whose doubled height fits the prefix buffer
  behind it.
- CleaningTwice.CleanTwiceSame: one way only. An unwanted frame with several children may be left with several
  or with less, which cannot be told without cleaning them; the exact condition is the one of
  CleaningFixed.CleanTwiceExactly, on the cleaned tree.
- Parser.ParseLine: a text without an 'x' and a later ':', or with 1000 or more characters in between, is
  outside its precondition; the source reads or writes out of bounds there.
- Parser.GenerateFromLines: a kept line that starts with its 'x' is outside its precondition, since the source
  then reads before the line.
- Rewriting.StrRep: replacements that are not shorter (as at StackTrace.cpp:1946-1947) are not covered;
  `replace` itself is, for every length, in Rewriting.Replace.
- Rewriting.AbbreviateBasicString: the loops for `string_view`, `make_shared` and `vector`
  (StackTrace.cpp:1988-2017) and the list of fixed abbreviations.
- `std::sort` is an insertion sort with the same outcome, the capacity of `staticVector` an argument of its
  constructor, and hash keys are natural numbers below 2^64.
- `multi_stack_info::operator=` from a vector, `findfirst`, the symbol search, the thread registry and `copy`:
  easy members.
