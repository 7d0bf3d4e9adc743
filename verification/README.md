# Verification of libmbox2

libmbox2 reads mbox files with several threads: it cuts the file into one range per thread,
cuts messages out of the ranges, parses their headers into a red-black tree, and can sort,
filter, index and reload what it found. This project models the parts of the library that
carry that work and proves what they are for. Nothing of the C library is executed here; the
proofs are about the models, which follow the C code branch by branch.

Check the whole project with `dafny verify dfyconfig.toml` (Dafny 4.11).

## What is modelled, and in which form

* **Red-black tree** (`RbShape`, `RbHeap`, `KeyOrder`). Real heap objects with parent
  pointers and one shared sentinel. A ghost zipper names the place where a rotation or the
  fixup works; the methods prove that the pointers spell out the ghost tree. The comparison is
  any strict partial order, so "equal" need not be transitive.
* **Header comparison** (`HeaderOrder`). `mboxBufCaseCmp` looks at the shorter length only.
  Equality is then "one key is a case-insensitive prefix of the other" and is not transitive.
  The tree is sound for it all the same, because inserts keep the key set prefix-free.
* **Worker pool** (`WorkerPool`, with `Runs`). A state machine over N workers, any number of
  enqueuers and one waiter; a step is one lock-protected section or one access under a held
  lock. Safety is proved over every run, deadlock freedom in every reachable state, and a
  rank bounds how long the pool can stay busy by itself.
* **Pipeline** (`Pipeline`). Two such pools chained as in `mboxParse`.
* **Splitter** (`LineScan`, `HeaderReads`, `Splitter`, `Messages`). What the two scans make of
  bytes, as functions of the buffer and of the whole file; what reads of any size make of the
  search for the headers; the buffered parser, proved against them; and the messages of one range. A loop of the code that would never end
  is an outcome of its own here.
* **Ranges** (`Ranges`, `Coverage`). Where each context starts as a function of file, offset
  and the answers to its reads, the cutting of the file into ranges with the in-place
  compaction of the contexts, and what the messages of all contexts are together.
* **Substring search** (`Kmp`). The border table, the matcher, and the matcher that ignores
  case but uses the case-sensitive table, with the exact class of patterns for which the
  latter misses nothing.
* **Circular list and quicksort** (`RingSort`, `RingList`), **sorting and filtering messages**
  (`MsgList`). Real nodes on a ring. The sort is proved for comparators that are not
  transitive, which both comparators of the library are not.
* **Block allocator** (`MemPool`). 32-bit words as 32 bits with shifts that lose bits, the
  one-word mask test, the count in front of each block.
* **Index** (`IndexFormat`, `Index`, `Batches`, `Reload`). Printing, flushing, parsing,
  batching and cutting messages out of one large read, one by one and as a whole.
* **Headers** (`HeaderFormat`, `HeaderRoundTrip`, `PlainMail`, `Headers`) and **decoding** (`Decode`).
  Unfolding as in sections 2.2 and 2.2.3 of RFC 5322; the `=XX` part of section 4.2 of
  RFC 2047, with output and input in one buffer.
* **Range removal** (`RangeRemoval`). The chunked copy whose reads and writes overlap.

What the system answers to reads, writes and syncs is a constant input everywhere (`Syscalls`):
one answer for every call, chosen before the run. Every result holds for all answers, and with
a system that fails nothing no method can report a failure.

Code that C changes in place is a class or an array here, with methods proved against
functions of the old state; what the library promises is then proved about those functions.

## What turned out to hold only under a condition

* The case-insensitive matcher misses matches for some patterns: "aAb" is not found in
  "aaab". It finds the first match in every text exactly for the patterns that are
  `CaseSafe`, a condition on the borders of the pattern alone (`Kmp.CaseFirstIff`); patterns
  in which no two letters differ only by case are among them (`Kmp.OneCaseIsSafe`). For every
  pattern it finds a match in front of which the first letter does not stand (`Kmp.CaseFindsFirst`).
* A grant of the allocator overlaps a live range exactly when some of its blocks lie in the
  next word, which the mask test never sees, and are taken (`MemPool.GrantOverlapsIff`,
  `MemPool.Straddles`). A pool whose block count is a multiple of the one size it serves, with
  that size a divisor of 32, never gets there, and no request on it fails while a block is free
  (`MemPool.AllocUniform`, `MemPool.ServeUniform`).
* Likewise a grant leaves the pool, or the bitset, exactly when no range inside passes the
  test and one that begins there does (`MemPool.LeavesIff`, `MemPool.LeavesPool`).
* The ranges of the threads cover the file exactly when no later share finds an earlier start
  (`Ranges.CoversIff`). If the first read of every search brings a "From " line none does,
  however short the reads are (`Ranges.WellCutCovers`); `Ranges.StartsOutOfOrder` has a file
  where one does with full reads, and one where it takes a short read.
* The loop over the headers never ends exactly when a NUL stands behind the first byte of a
  message and in front of its first blank line, unless it is the last byte of the file and no
  line feed stands in front of it (`LineScan.NeverEndsIff`). A NUL anywhere else does no harm.
* A message whose lines end in CR LF has its headers end where they should exactly when no read
  ends inside the CR LF of its blank line; the scan never looks at that line again
  (`HeaderReads.ByIff`; `Messages.LosesSplit` is a message lost that way). Files without CR are
  never read so (`Messages.PlainIsWellRead`).
* Messages at the end of a range are dropped, and no other context has them, when the first
  read that reaches behind the range ends too close behind a "From " line: inside that line, or
  within ten bytes of a line feed on the way to it (`Messages.LostIff`, `Messages.LosesMessage`).
  Such a read ends at most nine bytes behind the end of the range (`Messages.StopsBehind`), and
  where it ends follows from the answers of the system alone. The messages of all contexts
  together are the file, up to its last bytes, if and only if no context but the last drops one
  (`Coverage.WholeFile`).
* A From line in front of the headers is stored under its own name, but its bytes stay in
  front of the first key, although the comment in the code says the line is not to be parsed
  as a header (`HeaderRoundTrip.FromLineJoinsKey`).
* Index entries whose ends do not keep the order of their starts may lie outside the piece
  that is read for their batch; `Batches.GetMessages` succeeds exactly when none does
  (`Batches.NestedUnreachable` is a case where one does).
* The guard for encoded words lets one eleven-byte word through that is too short to be cut
  (`Decode.ShortWord`).
* Saving reports an error exactly when the system fails one of the writes or syncs it takes,
  or writes nothing; without one the file is complete exactly when the system takes every write
  as a whole (`Index.SaveComesTo`, `Index.Save`). A file that cannot be opened is not reported
  at all. The comment above `mboxIdxSave` speaks of lines ending in CR LF; the code writes LF,
  and so does the model.
* The comparator by date is a preorder only for lists without undated messages, or whose dated
  messages all agree (`MsgList.ByDatePreorder`). The sort puts the dated messages in order all
  the same (`MsgList.SortByDate`).

## Model

| member | source | states |
|---|---|---|
| RbShape.PlugRedBlack | src/mbox-redblacktree.c:106-149 | a red-black tree put into a context that keeps the rules around it, red below black, is a red-black tree again |
| RbShape.HeightLogarithmic | src/mbox-redblacktree.c:196-214 | a red-black tree of n nodes and height h has 2^h at most (n+1)^2 |
| RbHeap.RbTree.constructor | src/mbox-redblacktree.c:21-36 | an empty, valid tree; the sentinel it shares is black and has no children |
| RbHeap.RbTree.LeftRotate | src/mbox-redblacktree.c:66-84 | the pointers now spell out the tree rotated at x, everything around it unchanged; the sentinel is not written |
| RbHeap.RbTree.RightRotate | src/mbox-redblacktree.c:86-104 | mirror image of the left rotation |
| RbHeap.RotateInorder | src/mbox-redblacktree.c:66-104 | neither rotation changes the in-order sequence of pairs |
| RbHeap.RecolorFixes | src/mbox-redblacktree.c:113-117 | recolouring with a red uncle moves the violation two levels up and breaks nothing else |
| RbHeap.LiftLeftFixes | src/mbox-redblacktree.c:118-126 | the inner and outer case on the left side restore the red-black rules |
| RbHeap.LiftRightFixes | src/mbox-redblacktree.c:134-142 | the same on the right side |
| RbHeap.RbTree.FixLeft | src/mbox-redblacktree.c:109-126 | one round of the fixup keeps the one-violation invariant and the order of the pairs, and moves the violation up or ends it |
| RbHeap.RbTree.FixRight | src/mbox-redblacktree.c:127-143 | the same for a parent that is a right child |
| RbHeap.RbTree.InsertFixup | src/mbox-redblacktree.c:106-149 | terminates with black root, no red-red edge and equal black heights; the order of the pairs is unchanged |
| RbHeap.RbTree.Locate | src/mbox-redblacktree.c:154-171 | the descent finds a stored key equal to the given one exactly when there is one, and else the only place where the new key keeps the order |
| RbHeap.RbTree.Insert | src/mbox-redblacktree.c:151-194 | from any valid tree to a valid tree holding exactly the old pairs plus the new one, or nothing changed if a stored key is equal |
| RbHeap.RbTree.Find | src/mbox-redblacktree.c:196-214 | returns a node exactly when some stored key is equal to the query; the comparisons it makes are those of the path down |
| RbHeap.RbTree.SearchBound | src/mbox-redblacktree.c:196-214 | the comparisons on that path are at most twice the binary logarithm of size + 1, for every key |
| RbHeap.RbTree.Get | src/mbox-redblacktree.c:216-221 | a value exactly when some stored key is equal, and then the value of such a key |
| RbHeap.RbTree.Contains | src/mbox-redblacktree.c:223-228 | true exactly when some stored key is equal |
| RbHeap.RbTree.ForEachHelper | src/mbox-redblacktree.c:443-451 | the callback sees the pairs of a subtree in key order |
| RbHeap.RbTree.ForEach | src/mbox-redblacktree.c:455-459 | every stored pair is seen exactly once, in strictly increasing key order |
| RbHeap.InsertBeside | src/mbox-redblacktree.c:18-36 | inserting into one tree leaves another one alone although both share the sentinel |
| HeaderOrder.LowerIs | src/mbox-buf.c:253-260 | two bytes are the same to the comparison exactly if they are equal or one letter in its two cases; capitals count as small letters |
| HeaderOrder.CaseCmpAt | src/mbox-buf.c:253-260 | the result is the difference of the letters at the first place inside the shorter length where the keys differ, ignoring case, unless a NUL stands in front of it |
| HeaderOrder.CaseCmpSign | src/mbox-buf.c:253-260 | a key is smaller exactly if it has the smaller letter at such a place |
| HeaderOrder.AnyCase | src/mbox-buf.c:253-260 | the case of its letters makes no difference to any comparison with a key |
| HeaderOrder.EqualMeansPrefix | src/mbox-buf.c:253-260 | keys compare equal exactly when one is a case-insensitive prefix of the other |
| HeaderOrder.CaseCmpCoherent | src/mbox-buf.c:253-260 | the comparison is a strict partial order on all keys |
| HeaderOrder.EqualityNotTransitive | src/mbox-buf.c:253-260 | its equality is not transitive |
| KeyOrder.KeptStays | src/mbox-redblacktree.c:154-171 | what has been kept stays: a later pair never takes the place of an earlier one |
| HeaderOrder.KeptPrefixFree | src/mbox-redblacktree.c:151-194 | after any sequence of inserts no kept key is a case-insensitive prefix of another |
| HeaderOrder.TotalOnPrefixFree | src/mbox-redblacktree.c:151-194 | on the kept keys the comparison is a strict total order |
| HeaderOrder.AmbiguousQuery | src/mbox-redblacktree.c:196-221 | two kept keys answer one query exactly when the query is a proper prefix of both |
| HeaderOrder.AnswerIndependentOfShape | src/mbox-redblacktree.c:196-221 | every other query has one answer among the kept pairs |
| Headers.AskBoth | src/mbox-redblacktree.c:196-221 | two header trees that keep the same pairs, whatever their shapes, give the same answer to every such query |
| Headers.AskAnyCase | src/mbox-redblacktree.c:196-221 | a header tree gives the same answer to such a query in any case of its letters |
| WorkerPool.InvStep | src/mbox-worker.c:34-133 | every step keeps: lock ownership, the active count, every ticket in exactly one place, no lost wakeup, and what the waiter has seen |
| WorkerPool.RunInv | src/mbox-worker.c:34-133 | that invariant holds in every state of every run; in it a non-empty queue implies that the semaphore is set or somebody is bound to set it or to look |
| WorkerPool.WaitMeansDone | src/mbox-worker.c:90-99 | when a wait returns, every job enqueued before the call has run to completion exactly once |
| WorkerPool.TakenInOrder | src/mbox-worker.c:65-88 | in every run a worker that takes a job takes the first of those not yet taken: exactly the jobs added behind it are left |
| WorkerPool.AloneInOrder | src/mbox-worker.c:65-133 | with one worker the jobs are completed in the order they were added |
| WorkerPool.Conservation | src/mbox-worker.c:65-133 | enqueued = queued + in hand + completed, as disjoint sets and as counts, in every reachable state |
| WorkerPool.NoDeadlock | src/mbox-worker.c:34-133 | unless all is done and everybody sleeps, some thread can take a step |
| WorkerPool.RankDrops | src/mbox-worker.c:34-133 | every step the pool takes by itself lowers a rank |
| WorkerPool.DrainBounded | src/mbox-worker.c:101-133 | so no schedule keeps the pool busy for more steps than that rank |
| WorkerPool.StoppedMeansDone | src/mbox-worker.c:90-133 | and when it stops every job is done and an open wait has returned |
| Pipeline.RunInv | src/mbox.c:46-69 | the invariant of both pools and of the program around them holds in every state of every run |
| Pipeline.SeeksComeFirst | src/mbox.c:126-153 | in every run: when the main thread hands out contexts, or any worker runs one, every search for a start is completed |
| Pipeline.CtxExclusive | src/mbox.c:56-69 | no two io workers emit the same context, and none emits a completed one |
| Pipeline.ResultsArePermutation | src/mbox.c:174-185 | after both waits the completed list holds exactly one result for every message of every context, for every interleaving and worker count |
| Pipeline.NoDeadlock | src/mbox.c:114-185 | until the main thread has finished some thread can move |
| Pipeline.RunBounded | src/mbox.c:114-185 | without spurious wakeups every run of the pipeline is bounded |
| Pipeline.StoppedMeansFinished | src/mbox.c:174-185 | and it stops only when every message has its result |
| LineScan.FromAtIs | src/mbox-parser.c:500-508 | the place of a From line is where a line feed and "From " stand |
| LineScan.CanParseIff | src/mbox-parser.c:627-664 | in any buffer the scan succeeds at `h` if and only if the first blank line behind the start ends there, LF LF or LF CR LF, and no NUL stands in front of it |
| LineScan.CanParseMore | src/mbox-parser.c:627-664 | more bytes change the result only if the scan failed on the last ones; it can go on where it stopped unless the buffer ends inside a CR LF blank line, which is then passed |
| LineScan.CanParseRepeats | src/mbox-parser.c:675-685 | a scan that failed fails again in the same place as long as nothing is read |
| LineScan.HeadersEndIff | src/mbox-parser.c:627-687 | in any file the headers end at `h` if and only if the first blank line ends there and no NUL stands in front of it |
| LineScan.NeverEndsIff | src/mbox-parser.c:675-685 | in any file the loop never ends if and only if a NUL stands inside the headers, behind their first byte |
| LineScan.CutShortIff | src/mbox-parser.c:573-610 | the scan gives up in front of the next From line if and only if that line is not there in full, or a line feed on the way stands within the last ten bytes |
| LineScan.CutShortBehind | src/mbox-parser.c:573-610 | with the last line feed in front of that line at `q`: exactly if the buffer ends inside the first six bytes of the line, or within ten bytes of `q` |
| HeaderReads.ByIff | src/mbox-parser.c:668-687 | for any file and any reads: the search for the headers comes to what the whole file says if and only if no read ends inside the CR LF of the blank line they end with |
| HeaderReads.UnsplitMeansWhole | src/mbox-parser.c:668-687 | so with no such read, however much was read before the message, the headers end where the whole file says |
| Splitter.Parser.Read | src/mbox-parser.c:592-604 | a read of any size keeps the buffer equal to the file from the message's offset to the file offset |
| Splitter.Parser.CanParseHeaders | src/mbox-parser.c:627-664 | the scan finds what its functional form finds, and stops where it stops |
| Splitter.Parser.SeekHeaders | src/mbox-parser.c:668-687 | for any file and any answers of the system: found, failed or never ending as the reads decide, and as the whole file decides if and only if no read splits a CR LF blank line; it fails only at a read the system fails or the end of the file, and never ends only in a file with a NUL |
| Splitter.Parser.SeekNextFromLine | src/mbox-parser.c:566-611 | for any answers of the system the search comes to what the scan of the bytes read comes to; an error exactly if the system failed the last read, giving up only behind the range; it begins no read there |
| Splitter.Parser.CutMessage | src/mbox-parser.c:719-742 | the message ends at the first From line behind its headers, or close to the end of the file; none exactly if the system failed a read or the scan is cut short behind the range |
| Splitter.Parser.GetNextMessage | src/mbox-parser.c:690-743 | the message is the file from the old offset to the new one; which it is, or that there is none, is decided by the file and its reads, and its headers end where the whole file says if no read splits their blank line; no error unless the system fails a read |
| Messages.LostIff | src/mbox-parser.c:587-590 | the message at the end of a range is dropped if and only if the last read ended in the From line behind it or within ten bytes of a line feed in it |
| Messages.StopStep | src/mbox-parser.c:690-743 | in a regular range the message is cut if and only if the first read that reaches behind the range does not end too close behind its From line |
| Messages.StopsBehind | src/mbox-parser.c:587-590 | a range is covered up to the line feed it ends at, unless that read ends at most nine bytes behind it |
| Messages.LosesMessage | src/mbox-parser.c:587-590 | a file, and a first read of eight bytes, with which the only message of a range is lost; with thirteen bytes it is cut |
| Messages.LosesSplit | src/mbox-parser.c:668-687 | a message with CR LF line ends, and a first read of eight bytes, with which there is no message; with ten bytes it is cut |
| Messages.GetAllMessages | src/mbox.c:56-69 | the messages of a context are consecutive slices of the file, cut at From lines; in a range that ends at a From line, with no read that splits a blank line, they end exactly where file and answers of the system say; no error unless the system fails a read |
| Messages.ChainJoins | src/mbox.c:56-69 | put together they are the piece of the file they were cut from |
| Messages.ReadsDoNotMatter | src/mbox-parser.c:566-743 | two passes whose reads came out differently cut the same messages, if no read splits a blank line |
| Ranges.MatchAtIs | src/mbox-parser.c:533-554 | what is searched for: "From " at the beginning of the file, a line feed and "From " elsewhere |
| Ranges.SearchWindow | src/mbox-parser.c:533-554 | the first complete match in the window, or none if there is none |
| Ranges.SeekStart | src/mbox-parser.c:510-563 | for every file, offset and answers of the system the start its functional form gives, as far as its reads are followed |
| Ranges.SearchIff | src/mbox-parser.c:524-559 | that start is `p` if and only if the first read that ends the search does with `p`: it fails, or brings a first match at `p`; the search goes on if and only if no read ends it |
| Ranges.WindowStartIs | src/mbox-parser.c:524-527 | the k-th read begins k + 1 times 300000 bytes in front of the offset, or at the front of the file |
| Ranges.NoGaps | src/mbox-parser.c:524-559 | with full reads every byte in front of the offset is in one of the windows read so far |
| Ranges.SharesEqual | src/mbox.c:116-129 | the shares the searches begin at are equally long, and less than one byte for each is left over |
| Ranges.Compact | src/mbox.c:156-171 | the array keeps, in order and numbered anew, exactly the contexts with a non-empty range |
| Ranges.KeptCovers | src/mbox.c:156-171 | ranges running from each start to the next, starts in order: the kept ones are disjoint, ordered and cover the whole |
| Ranges.LinkedCovers | src/mbox.c:142-171 | for ranges that run from each start to the next the converse holds, too: dropping a reversed one leaves too much length |
| Ranges.SetAllOffsets | src/mbox.c:113-172 | for every file, thread count and answers exactly the non-empty ranges between the starts, unless some search does not end |
| Ranges.CoversIff | src/mbox.c:113-172 | for every file, thread count and answers the kept ranges cover the file from the first start if and only if no later share finds an earlier start |
| Ranges.StartsAtZero | src/mbox-parser.c:544-552 | in a file that begins with "From " a context at its beginning starts there, whatever its reads bring |
| Ranges.KeptReady | src/mbox.c:142-171 | in a file that begins with "From " every kept context begins at a From line, with all its offsets there |
| Ranges.StartsOrdered | src/mbox.c:126-137 | when each first read brings a match, a later share never finds an earlier start |
| Ranges.WellCutCovers | src/mbox.c:113-172 | so the ranges of such a file cover it from 0 to its size |
| Ranges.StartsOutOfOrder | src/mbox-parser.c:524-559 | two files whose four contexts find a later start first, with full reads and after one short read, and whose kept ranges do not cover them |
| Ranges.LateIsWellCut | src/mbox-parser.c:524-559 | the second of them is cut in order when all reads are full |
| Coverage.RangeStops | src/mbox.c:56-69 | a context but the last stops behind the first byte of the next one exactly if it is covered, and else inside its range |
| Coverage.KeptOfFile | src/mbox.c:113-172 | of a file that begins with From, with the starts in order, the kept ranges cover the file, follow each other, and all but the first begin at a From line |
| Coverage.RunContext | src/mbox.c:56-69 | what the job of one context comes to, from the file and the answers to its reads |
| Coverage.WholeFile | src/mbox.c:174-185 | for any file, with reads that neither fail nor split a blank line: the messages of all contexts, without the byte that each shares with the one before, are the file up to where the last one stops if and only if no other context loses a message; the last one stops within ten bytes of the end unless a message has no end of headers |
| Kmp.StepBest | src/mbox-buf.c:443-448 | a step leads one past the longest of the match and its borders that the character extends |
| Kmp.RunCostBound | src/mbox-buf.c:434-448 | a search compares at most three characters for each one of the text |
| Kmp.ComputePrefixTable | src/mbox-buf.c:403-420 | each entry is the length of the longest proper border of that prefix; the comparisons are those of the steps, at most three per character |
| Kmp.ContainsPatternWithTable | src/mbox-buf.c:422-452 | the first occurrence before the first NUL, or -1 exactly if there is none; the comparisons are those of the steps, at most three per character of that text |
| Kmp.ContainsPattern | src/mbox-buf.c:454-463 | the same with the table computed on the way, comparisons linear in text plus pattern |
| Kmp.ContainsCasePatternWithTable | src/mbox-buf.c:465-495 | every index returned is a match ignoring case, for any pattern; the first one if the pattern is safe |
| Kmp.ContainsCasePattern | src/mbox-buf.c:497-506 | the same with the table computed on the way; for any pattern a match is found if the first letter of the pattern does not stand in front of it |
| Kmp.CaseFindsFirst | src/mbox-buf.c:465-506 | a match in front of which the first letter of the pattern does not stand is always found, so also one at the start of the text |
| Kmp.CaseFirstIff | src/mbox-buf.c:465-506 | it returns the first match in every text if and only if the pattern is safe |
| Kmp.OneCaseIsSafe | src/mbox-buf.c:465-506 | patterns in which no two letters differ only by case are safe |
| Kmp.MixedCaseMissed | src/mbox-buf.c:465-506 | "aAb" is not safe, and is missed in "aaab" |
| RingList.MboxList.AddHead | src/mbox-list.c:34-56 | the contents are the new element in front of the old ones, on one ring with one fresh node |
| RingList.MboxList.AddTail | src/mbox-list.c:58-78 | the new element behind the old ones |
| RingList.MboxList.RemoveHead | src/mbox-list.c:80-101 | takes the first element off, or none from an empty list |
| RingList.MboxList.RemoveTail | src/mbox-list.c:103-124 | takes the last element off |
| RingList.MboxList.AppendListTail | src/mbox-list.c:291-319 | the nodes and contents of both lists, one behind the other, on one ring |
| RingList.GuardMeansSorted | src/mbox-list.c:232-234 | the guard with the count flag holds exactly for segments of at most one element, the empty one told apart from the whole ring |
| RingList.Sides | src/mbox-list.c:236-238 | either side of the pivot is again a segment, possibly empty, and never the whole ring |
| RingList.QSortPivot | src/mbox-list.c:204-226 | permutes the segment so that nothing before the returned node compares greater than it and everything behind it does |
| RingList.QSortHelper | src/mbox-list.c:228-239 | terminates; permutes the segment for any comparator, and orders it if the comparator is sortable on the data |
| RingList.MboxList.QSort | src/mbox-list.c:242-251 | no node or link changes; the data are a permutation, and ordered from the root on for every sortable comparator |
| RingSort.PreorderIsSortable | src/mbox-list.c:242-251 | every total preorder is sortable |
| RingSort.SidesSorted | src/mbox-list.c:236-238 | a partition with both sides sorted is sorted, without transitivity |
| MsgList.ByDatePreorder | src/mbox-msg.c:130-146 | the comparison by date is a total preorder exactly on lists without undated messages or with all dated ones equal |
| MsgList.Comparators | src/mbox-msg.c:130-161 | both comparators are sortable on every list |
| MsgList.SortByDate | src/mbox-msg.c:163-167 | all dated messages come out in order, whatever undated ones stand between them |
| MsgList.SortByFrom | src/mbox-msg.c:169-173 | of two messages with senders the earlier has the smaller letter, ignoring case, at the first place inside the shorter length where the two differ |
| MsgList.FilterBySender | src/mbox-msg.c:175-203 | the matching messages in reverse order; for a safe sender exactly those that contain it ignoring case; for any sender all those in which it stands where its first letter first does |
| MemPool.MaskTest | src/mbox-memory.c:63-67 | the test on one word with its truncating shift is the test of the blocks that lie in that word |
| MemPool.GrantOverlapsIff | src/mbox-memory.c:65-80 | a first-fit grant overlaps a live range if and only if one of its blocks in the next word is taken |
| MemPool.LeavesIff | src/mbox-memory.c:65-80 | a first fit reaches beyond the pool, or the bitset, if and only if no range that ends inside passes the test |
| MemPool.Straddles | src/mbox-memory.c:58-101 | four requests and a free on a new pool after which a grant overlaps one that is still live |
| MemPool.LeavesPool | src/mbox-memory.c:58-84 | two requests on a new pool of 33 blocks after which a grant ends outside the pool |
| MemPool.UniformFits | src/mbox-memory.c:58-80 | in a pool of aligned runs of `n` blocks, with `n` a divisor of 32 and of the block count, a first fit of `n` blocks stays inside its word and the pool and keeps the runs aligned |
| MemPool.AllocUniform | src/mbox-memory.c:58-84 | a pool that has served one such size only keeps that state; a request fails exactly if every block is taken, and else is granted free blocks in one word of the pool |
| MemPool.FreeUniform | src/mbox-memory.c:86-101 | a free keeps that state |
| MemPool.ServeUniform | src/mbox-memory.c:47-101 | so it holds after any number of requests and frees from a new pool on |
| MemPool.LiveRanges | src/mbox-memory.c:58-101 | live ranges are disjoint, and a bit is set exactly when its block is in one of them |
| MemPool.CountIsBigEndian | src/mbox-memory.c:36-45 | the count is the four bytes read as a number, most significant first |
| MemPool.CountRoundTrip | src/mbox-memory.c:21-45 | the count read back from its four bytes is the count written |
| MemPool.Pool.Alloc | src/mbox-memory.c:58-84 | first fit; fails exactly if no range passes the test; leaves the bitset exactly if the first fit reaches beyond it; a grant that fits keeps bits, counts and live ranges right and writes nothing but its own count |
| MemPool.Pool.Free | src/mbox-memory.c:86-101 | clears exactly the bits of the live range, lowers the number of blocks taken by its length, keeps everything else |
| MemPool.FreeUndoesAlloc | src/mbox-memory.c:58-101 | clearing what a grant set brings back the bits from before it |
| MemPool.Pool.Write | src/mbox-memory.c:21-45 | writes inside the granted size leave every count and all other allocations alone |
| IndexFormat.LinePrinted | src/mbox-index.c:100 | the line of an entry, byte for byte |
| IndexFormat.SavedIsLoaded | src/mbox-index.c:100-207 | parsing the printed lines gives back the same pairs, for values below 2^63 |
| IndexFormat.AtolOfDecimal | src/mbox-index.c:199-200 | reading a printed number gives the number |
| IndexFormat.AtolIs | src/mbox-index.c:199-200 | blanks, a sign and a number, whatever comes behind it: the number with its sign |
| Index.FlushesAll | src/mbox-index.c:96-119 | the writes are together as long as what is to be written, and all but the last fill the buffer |
| Index.SaveComesTo | src/mbox-index.c:96-124 | for every system: an error if and only if it fails a write or sync that saving takes, or writes nothing; without one the file is the lines if and only if it takes every write as a whole, and too short if not |
| Index.IndexFile.TryWrite | src/mbox-index.c:38-61 | the new state for every answer to the write and to the sync, and an error exactly if one of them asks for it |
| Index.SaveNodes | src/mbox-index.c:96-119 | wherever flushes happen, the file comes to what the functional form makes of the lines and the answers of the system |
| Index.Save | src/mbox-index.c:69-124 | sorts the list so that no message comes behind one that begins later; with a system that fails nothing it reports success, and the file is then exactly the concatenated lines if and only if the system takes every write as a whole |
| Index.ReadToken | src/mbox-index.c:184-192 | copies the bytes up to the separator; fails where C would leave the data or the token array |
| Index.IndexesToList | src/mbox-index.c:167-207 | the list holds exactly what the functional parser makes of the data, or both fail |
| Batches.TotalCovers | src/mbox-index.c:286-292 | the bytes added up for messages that follow each other are those they cover |
| Batches.BatchLoad | src/mbox-index.c:271-304 | non-empty consecutive batches that concatenate to the list; each is closed by the first entry that reaches the threshold, in wrapping arithmetic, but for a last, open one |
| Batches.GetMessages | src/mbox-index.c:221-268 | succeeds exactly if every message lies between the first start and the last end and inside the file, and then each is the slice of the file from its start to its end |
| Batches.AllReachable | src/mbox-index.c:221-304 | with sorted starts and nondecreasing ends every message of every batch is cut out right and whole |
| Batches.BatchesLoadAll | src/mbox-index.c:221-304 | however the index is cut into batches, together they load the message of every entry, in order |
| Batches.NestedUnreachable | src/mbox-index.c:226-229 | a message that contains the next one is not inside the piece read for the two |
| Reload.LoadAll | src/mbox-index.c:271-304 | the messages of all entries in order, and no batch of a well-ordered index fails |
| Reload.SaveAndLoad | src/mbox-index.c:69-304 | saved, read back, cut into batches and loaded: with whole writes the messages of the sorted list, in order |
| HeaderRoundTrip.ValueStands | src/mbox-parser.c:256-270 | a value printed in folded lines is read and unfolded, up to the first byte behind it |
| HeaderRoundTrip.HeadersRoundTrip | src/mbox-parser.c:222-298 | parsing a printed block without a From line gives the unfolded pairs in order, and stops at the first byte of the body, or behind the end of the message if there is none |
| PlainMail.StoredIs | src/mbox-parser.c:272-278 | a value is decoded exactly if it begins with "=?utf-8?Q?" and ends with "?=", and else stored as it was unfolded |
| PlainMail.StoredEncoded | src/mbox-parser.c:272-278 | an encoded word is stored as the decoder returns it |
| PlainMail.PlainMailParses | src/mbox-parser.c:222-298 | mail printed byte for byte with CR LF line ends and values folded at spaces or tabs gives its keys and unfolded values, in order, up to the first byte of the body |
| PlainMail.FromMailParses | src/mbox-parser.c:222-298 | with a From line in front: the line under "__FROM_LINE__", then the line and the first key run together, then the rest |
| HeaderRoundTrip.FromLineJoinsKey | src/mbox-parser.c:237-248 | with a From line in front, the first header is stored under that line and its own name run together |
| Headers.ReadValue | src/mbox-parser.c:256-270 | the loops over folded lines compute the functional form |
| Headers.ReadHeader | src/mbox-parser.c:235-281 | one turn of the loop stores exactly the pairs of the functional form, the first of equal keys winning, whatever the decoder of encoded values returns |
| Headers.ParseEmailHeaders | src/mbox-parser.c:222-298 | the tree holds exactly the pairs of the functional form under the rule that the first of equal keys wins, and the offset is where it stops |
| Decode.DecodedIff | src/mbox-buf.c:600-624 | decoding a text comes to `d` if and only if the text is written in bytes that mean themselves and escapes of two hexadecimal digits in either case that mean `d`, where no "=" that means itself has two digits behind it |
| Decode.PlainDecodes | src/mbox-buf.c:600-624 | a text without "=" comes out unchanged |
| Decode.DecodeRoundTrip | src/mbox-buf.c:600-624 | decoding undoes every encoder that escapes "=", NUL and any chosen other bytes, with each digit in either case |
| Decode.EncodedHasNoNul | src/mbox-buf.c:605-606 | so the decoder, which stops at a NUL, sees all of what was encoded |
| Decode.DecodeStep | src/mbox-buf.c:606-622 | a write lands in front of everything still to be read |
| Decode.DecodeMimeEncoded | src/mbox-buf.c:600-624 | decoding a text onto itself equals the pure decoding of the original text, never grows it, and leaves the bytes behind the result alone |
| Decode.DecodeInplace | src/mbox-buf.c:626-635 | decodes what stands between prefix and suffix, up to a first NUL; fails exactly on words too short to be cut |
| Decode.ShortWord | src/mbox-buf.c:577-585 | the guard passes exactly one word that is too short |
| RangeRemoval.MoveChunk | delete-from-file/main.c:77-81 | a full write of the next chunk may overlap the chunk's own place, but touches nothing still to be read |
| RangeRemoval.FullMoves | delete-from-file/main.c:77-81 | if the system fails no read and takes every write as a whole, the bytes behind the range end up in front, whatever the sizes of the chunks |
| RangeRemoval.ShortWriteLoses | delete-from-file/main.c:77-81 | a file, and one short write, with which bytes behind the range are lost |
| RangeRemoval.File.RemoveFrom | delete-from-file/main.c:66-84 | the contents for every answer of the system; exactly the file without the range if it fails no read and takes every write as a whole |
| RangeRemoval.RemoveUndoesInsert | delete-from-file/main.c:66-84 | removing what was inserted gives back the file |

## Left out

- Deleting from the tree: the search loop of `mboxRBTreeDelete` does not advance on a match, and nothing in the library calls it.
- Stopping and releasing a worker pool: the workers never leave their loop and are detached.
- WorkerPool.DrainBounded: excludes spurious wakeups and new calls, which can go on for ever; the safety lemmas include them. Two threads waiting on one pool are not modelled, because `no_work` is signalled, not broadcast, and the library never does it.
- Pipeline.ResultsArePermutation: says which messages have a result, not what `mboxMsgLiteCreate` puts into it.
- Messages.GetAllMessages: where it stops is stated for reads that neither fail nor split a blank line, and messages whose headers end inside the range. It does not claim that the last bytes of the file belong to a message, because the scan gives up within ten bytes of the end.
- Ranges.SeekStart: follows a number of reads that is a parameter; a search that has not ended by then counts as not ended.
- RingList.MboxList.QSort: leaves the mutex out, which the code does not release when the list has at most one element.
- MsgList.FilterBySender: requires a From header in every message and a non-empty sender, as the code does; an empty sender makes it write outside the table.
- MemPool.Pool.Alloc: requires requests of at most 32 blocks; beyond that the shift of the mask is undefined in C.
- Index.Save: after an error nothing is claimed about the contents of the file.
- Index.IndexesToList: a token too long for its array, or a file that ends inside a line, is undefined in C and ends the model with a failure; `atol` is modelled where its result fits.
- Batches.BatchLoad: the lists of offsets are sequences here, so moving nodes between lists is not captured; each job is the batch handed to the pool.
- Headers.ParseEmailHeaders: the decoder it calls for encoded values copies memory from behind the value, which C leaves undefined, so its result is a parameter; looking outside the message ends the model with a failure.
- Decode.DecodeRoundTrip: underscores, which RFC 2047 uses for spaces, are plain bytes for the code and for the encoder here.
- `mboxParseFrom`, multipart bodies, previews and the rest of the message fields: unfinished, or dependent on the shape of the input.
- `src/mbox-date.c`: rests on `mktime` and `strtol`; timestamps are integers here.
- System calls, pthread primitives, `malloc` and the growth of buffers: abstract steps, sequences and parameters.
- Wrap-around of lengths, offsets and 32-bit counters, except where `Batches` and `MemPool` model it: they count bytes in memory or in a file.
- `tolower` and `isspace` outside the C locale.
- Printing, logging, timing, `mbox-array` and the prototypes in `lookback-algorithm` and `multi-thread-reads`: they would add only easy members.
