# cromfs in Dafny

A model of the algorithms at the core of cromfs, a compressing and deduplicating read-only filesystem, with proofs
of what they keep and where they do not do what they are for. `dafny verify dfyconfig.toml` checks all of it.

- **String search** (`SearchSpec`, `BoyerMoore`, `TurboSearch`, `AppendSearch`). The tables are the ones the
  theory asks for, and the plain and Horspool searches return the least occurrence. The turbo search does not always:
  its bump of the shift to `ignore_num + 1` can step over an occurrence. It is exact in all haystacks if and only if
  the needle has no `TurboTrap`, a finite condition on the needle and its tables: a match length remembered, a match
  length reached next, a byte that mismatches, and an offset at which the needle still agrees with all of these. An
  occurrence missed costs the filesystem space only: what the search does return is always real.
- **The match finder of LZMA** (`LzHash`, `LzTree`, `LzDescent`, `LzFinder`, `LzIndex`, `LzMatches`, `LzChain`,
  `LzRuns`, `LzShort`, `LzLongest`, `LzChainLongest`, `LzWalks`, `LzMachine`). A pure transition system, with the trees
  and chains its references stand for, and a class over arrays that refines it. What is reported is true in every run
  and passes over neither the newest position with the 2-byte hash nor the newest with the 3-byte hash. Of the positions
  with the 4-byte hash, as many of the newest as the cut value are never passed over, by the tree or by the chains; in a
  run that the cut value does not cut short none are, so the longest match there is and the closest of each length are
  found. Every call looks as far ahead as a match may reach, as long as the stream goes on giving.
- **Blockifier and reader** (`Arithmetic`, `AutoIndexGrid`, `BlockStore`, `Blockifier`, `BlockNumbering`,
  `IdenticalBlocks`, `BlockSchedule`, `BlockReader`). Identical blocks are found and share a number, with each of the
  methods among the blocks it looks at. Two cases are missed. A block that begins its source is never found as a copy's original when an empty source stands
  right before that source, because both begin at the same block number. And a copy that is cut larger than the
  original is passed over, as block sizes chosen by path allow. A block is written where it adds no more bytes than
  anything the candidates have on offer, and the index loses nothing but the entries it has used. What is stored is read
  back, byte for byte. The comment
  at the reader's bitset of needed fblocks promises one bit for each fblock; with 64-bit words the mask is still a
  32-bit one, and two fblocks that are 32 apart within one word share a bit (taking the shift count modulo 32, as the
  processor does). Reading is complete if and only if no two needed fblocks share a bit, which none do while there
  are at most 32 fblocks.
- **Compressed hash maps** (`CompressedHash`, `RangeSet`, `SparseHash`). Both refine a finite map. The set of live
  indices is kept as changepoints; its one weak place is the last index of the type, whose successor wraps, both when
  it is set and when it is erased.
- **Sparse writing** (`SparseWrite`). The image is written through a function that leaves out blocks of zeros. The
  test for zeros, as compiled, is true of the blocks that have no zero byte, so it leaves out other bytes.
- **Directories** (`Endian`, `DirectoryFormat`, `DirectoryReader`). Encoder, listing and lookup agree. The listing
  measures distances between names in a signed 32-bit number: a request that spans 2 GiB or more of names gets EIO,
  and every shorter one its exact slice.
- **Inodes** (`InodeFormat`, `InodeNumbers`, `InodeTable`). Numbers, slots, link counts and round trips. A table that
  does not end on a multiple of 4 may give its first new inode a slot that reaches past its room (`FirstFits`); the
  program only starts from an empty one.
- **The whole way** (`Filesystem`, `ImageReader`, `PathLookup`). From a tree of files with their names to an image, and
  from any path back, one lookup for each of its names, to the inode, the link count and the bytes.
- **The pool allocator** (`PoolAllocator`). Owners write to their units in between, which the free list runs through.

`Wrappers` holds the option and result types. Bytes are numbers below 256, machine integers are natural numbers with
their wrap-around written out where the code relies on it. Ghost parameters and fields name what the code has no
variable for: the stream, a directory's entries, the bytes a block number was promised to stand for.

## Model

| member | source | states |
|---|---|---|
| `BoyerMoore.InitOcc` | lib/boyermoore.cc:27-45 | the table tells for every byte how far its last place in all but the end of the needle is from the end, or the needle length |
| `BoyerMoore.InitSuff` | lib/boyermoore.cc:78-133 | every common suffix of a proper prefix with the whole needle is the longest one, and the borders found on the way stand in the table |
| `BoyerMoore.CommonSuffixInWindow` | lib/boyermoore.cc:81-94 | inside the window of an earlier comparison the common suffix can be copied instead of compared |
| `BoyerMoore.InitSkip` | lib/boyermoore.cc:57-139 | the table is exactly the strong good-suffix table: each entry is the least shift s >= 1 that agrees with all the needle after j and does not put an equal byte under j |
| `BoyerMoore.BackwardsMatchLen` | lib/stringsearchutil.cc:48-66 | counts from min on, backwards, up to the first difference or max |
| `SearchSpec.GoodSuffixSafe` | lib/boyermoore.cc:208-217 | no occurrence lies closer than the good-suffix shift of a mismatch |
| `SearchSpec.BadCharacterSafe` | lib/boyermoore.cc:208-217 | no occurrence lies closer than the bad-character shift of a mismatch |
| `BoyerMoore.LargerShiftSafe` | lib/boyermoore.cc:208-217 | so the larger of the two shifts never steps over an occurrence |
| `BoyerMoore.MemChr` | lib/boyermoore.cc:146-150 | for a one-byte needle the first place of the byte is the least occurrence |
| `BoyerMoore.SearchInHorspool` | lib/boyermoore.cc:141-174 | the result is the least occurrence of the needle, or the haystack length if there is none |
| `BoyerMoore.SearchIn` | lib/boyermoore.cc:176-220 | the same least occurrence |
| `TurboSearch.MatchedDespiteSkipping` | lib/boyermoore.cc:251-289 | not comparing the remembered bytes gives the match length a full comparison would |
| `TurboSearch.TurboShiftSafe` | lib/boyermoore.cc:291-312 | the turbo shift never steps over an occurrence |
| `TurboSearch.TurboSound` | lib/boyermoore.cc:222-315 | for every needle a position the search returns is a real occurrence |
| `TurboSearch.SkippedOccurrenceIsTrap` | lib/boyermoore.cc:304-312 | an occurrence can only be missed at the ignore_num + 1 bump, and then needle and tables contain a trap |
| `TurboSearch.TrapSprings` | lib/boyermoore.cc:222-315 | every trap yields a haystack whose least occurrence the search does not return |
| `TurboSearch.TurboExactIffSafe` | lib/boyermoore.cc:222-315 | the search returns the least occurrence in every haystack if and only if the needle has no trap |
| `TurboSearch.TurboMissesAnOccurrence` | lib/boyermoore.cc:222-315 | babcbbab occurs in zzzzcbabbabcbbab at 8, and with any correct tables the search reports that it does not occur |
| `TurboSearch.SearchInTurbo` | lib/boyermoore.cc:222-315 | the loop computes the function those theorems are about: a real occurrence or the length, and the least one for a needle without trap |
| `AppendSearch.ScanByte` | lib/stringsearchutil.cc:148-171 | finds the first byte equal to c on the grid, and none on the grid was equal before it |
| `AppendSearch.SearchInWithAppendOnly` | lib/boyermooreneedle.hh:160-195 | the first grid position from which the whole tail of the haystack is a beginning of the needle with an overlap strictly greater than the minimum, or the length |
| `AppendSearch.SearchInWithAppend` | lib/boyermooreneedle.hh:125-133 | the least full occurrence if there is one, otherwise the first tail overlap |
| `AppendSearch.SearchInTurboWithAppend` | lib/boyermooreneedle.hh:142-151 | the turbo answer if it finds one, otherwise the first tail overlap; either way the haystack agrees with the needle from there on |
| `AppendSearch.AnalyzeAppend` | lib/append.cc:3-48 | in each of its cases which position is chosen, and always one where the old contents agree with the block as far as they overlap, not past any overlap long enough |
| `LzHash.Hash2Exact` | lib/lzma/C/LzHash.h:22-26 | equal 2-byte hashes after equal first bytes mean an equal second byte, for any crc table |
| `LzHash.Hash3Exact` | lib/lzma/C/LzHash.h:22-26 | equal 3-byte hashes after equal first bytes mean equal second and third bytes, for any crc table |
| `LzHash.HashExample` | lib/lzma/C/LzHash.h:22-26 | the hashes of the bytes 1, 2, 3, 4, in a table that leaves bytes as they are, are 3, 0x303 and 0x383 |
| `LzTree.BetweenSharesPrefix` | lib/lzma/C/LzFind.c:371-383 | text ordered between two texts that share m bytes with the current one shares them too |
| `LzTree.ExtendFindsLcp` | lib/lzma/C/LzFind.c:371-383 | a comparison begun anywhere inside the common prefix still finds its true length |
| `LzTree.SplitOrdered` | lib/lzma/C/LzFind.c:408-456 | splitting a search tree at the current text gives two ordered trees on its two sides, whatever the cut value |
| `LzTree.InsertKeepsTree` | lib/lzma/C/LzFind.c:408-456 | inserting keeps order and freedom from repeats, and adds no position but the current one |
| `LzTree.PruneKeepsTree` | lib/lzma/C/LzFind.c:361-368 | so does forgetting what has left the window |
| `LzTree.SplitMatchesGood` | lib/lzma/C/LzFind.c:353-406 | the matches met on the way down are true, ever longer, and never longer than the limit |
| `LzDescent.StepLenIsLcp` | lib/lzma/C/LzFind.c:371-383 | starting each comparison at min(len0, len1) finds the true common length of a node that the pointers reach |
| `LzDescent.DescendShowsSplit` | lib/lzma/C/LzFind.c:408-456 | the pointer walk leaves exactly the split tree at its two hanging ends and disturbs no other word |
| `LzDescent.HuntReportsMatches` | lib/lzma/C/LzFind.c:353-406 | the reporting walk reports exactly the matches of the split |
| `LzDescent.HuntRebuildsLikeDescend` | lib/lzma/C/LzFind.c:353-456 | the two walks leave the same references behind |
| `LzIndex.RefNext` | lib/lzma/C/LzFind.c:290-302 | lowering references keeps every in-window distance, and keeps every rejected reference rejected |
| `LzIndex.ShowsNext` | lib/lzma/C/LzFind.c:290-302 | moving on by one byte drops from each tree exactly the positions that leave the window |
| `LzIndex.PlantedTreesNext` | lib/lzma/C/LzFind.c:539-584 | the trees of all hash slots survive inserting the current position, moving on and renumbering |
| `LzMatches.MoveAndReadOk` | lib/lzma/C/LzFind.c:57-121 | sliding and reading lose neither the history nor the bytes read ahead |
| `LzMatches.NormalizeOk` | lib/lzma/C/LzFind.c:285-320 | renumbering moves neither the cursor nor what has been read ahead, and leaves room for a whole window |
| `LzMatches.MovePosOk` | lib/lzma/C/LzFind.c:458-463 | a step keeps all window invariants, limits included, across reading, sliding and renumbering |
| `LzMatches.Head2Hit` | lib/lzma/C/LzFind.c:544-583 | a 2-byte head in the window whose first byte agrees is a true 2-byte match |
| `LzMatches.Head3Hit` | lib/lzma/C/LzFind.c:544-583 | the same for 3 bytes |
| `LzMatches.SkipMatchesGet` | lib/lzma/C/LzFind.c:539-702 | Bt4: skipping a position and asking for its matches leave the same state, on every path |
| `LzMatches.SkipKeepsState` | lib/lzma/C/LzFind.c:688-702 | Bt4: each call keeps the whole invariant and moves on by exactly one byte |
| `LzMatches.GetReportsTrueMatches` | lib/lzma/C/LzFind.c:539-584 | Bt4: every pair reported is a true match of that length at that distance inside the window, with strictly increasing lengths up to lenLimit |
| `LzMatches.FewMatches` | lib/lzma/C/LzFind.c:539-584 | fewer pairs are reported than the longest match has bytes |
| `LzShort.HeadsNewestNext` | lib/lzma/C/LzFind.c:539-584 | after a call, no position of the window that has a 2-byte or a 3-byte hash is newer than the one the head of this hash names |
| `LzShort.SecondHeadFound` | lib/lzma/C/LzFind.c:556-565 | the newest position with the 2-byte hash, if it shares two bytes, is measured, or a longer match is measured instead |
| `LzShort.ThirdHeadFound` | lib/lzma/C/LzFind.c:566-573 | the newest position with the 3-byte hash, if it shares three bytes, is measured |
| `LzShort.HeadsAreNewest` | lib/lzma/C/LzFind.c:544-583 | the heads report no other positions than these two |
| `LzShort.GetFindsShort` | lib/lzma/C/LzFind.c:539-633 | Bt4 and Hc4, cut short or not: when the newest position with the 2-byte (3-byte) hash shares two (three) bytes, the answer is not empty, its last match is as long as all that position shares, and no match of two or three bytes is with any other position |
| `LzShort.EveryRunFindsShort` | lib/lzma/C/LzFind.c:539-719 | so it is in every answer of every run from Init |
| `LzLongest.SplitMatchesLongest` | lib/lzma/C/LzFind.c:353-406 | for any position of the tree that shares more than the matches before, a match is found that is as long and no farther back, if the walk is not cut short, or if fewer than the cut value of positions in the tree are newer |
| `LzLongest.PruneIsExact` | lib/lzma/C/LzFind.c:361-368 | forgetting drops exactly the positions that are too old, because each node is newer than all below it |
| `LzLongest.SplitNewestFirst` | lib/lzma/C/LzFind.c:408-456 | a split leaves every node newer than all below it |
| `LzLongest.SplitKeeps` | lib/lzma/C/LzFind.c:408-456 | a split loses no position that has fewer newer ones in the tree than the cut value, and one that is not cut short loses none, but for one that equals the current text on all limit bytes |
| `LzLongest.SkipKeepsFull` | lib/lzma/C/LzFind.c:688-702 | each call leaves every position of the next window that has fewer than the cut value of newer ones with its hash in the tree of that hash, or a newer one with the same limit bytes; a call that is not cut short leaves every position so |
| `LzLongest.GetFindsLongest` | lib/lzma/C/LzFind.c:539-584 | for every position of the window that shares four bytes or more, and has fewer than the cut value of newer ones with its hash, a match is reported that is as long and no farther back, and the last match is as long; for every such position at all when no walk has been cut short |
| `LzLongest.WideCutSuffices` | lib/lzma/C/LzFind.c:353-368 | with a cut value of at least the history size no walk is cut short |
| `LzLongest.EveryRunFindsLongest` | lib/lzma/C/LzFind.c:539-702 | so it is in every answer of every run from Init; in a run without a cut every answer holds the longest match of the window, and for each length of four or more the closest, and a wide cut value makes every run one of these |
| `LzChain.SkipMatchesGet` | lib/lzma/C/LzFind.c:586-719 | Hc4: both kinds of call leave the same state |
| `LzChain.SkipKeepsState` | lib/lzma/C/LzFind.c:704-719 | Hc4: each call keeps the invariant of the chains |
| `LzChain.GetReportsTrueMatches` | lib/lzma/C/LzFind.c:586-633 | Hc4: every pair reported is a true match inside the window, with strictly increasing lengths |
| `LzChainLongest.FollowLongest` | lib/lzma/C/LzFind.c:322-351 | for any of the first positions of a chain, as many as the cut value, or for all of it when the walk is not cut short, a match is found that is as long and no farther back, though only those are compared that pass the test of one byte |
| `LzChainLongest.SkipKeepsFull` | lib/lzma/C/LzFind.c:586-719 | Hc4: each call, cut short or not, leaves in the chain of each hash exactly the positions of the window that have it, the newest first |
| `LzChainLongest.GetFindsLongest` | lib/lzma/C/LzFind.c:586-633 | Hc4: for every position of the window that shares four bytes or more, and has fewer than the cut value of newer ones with its hash, a match is reported that is as long and no farther back, and the last match is as long; for every such position at all when the walk is not cut short |
| `LzChainLongest.WideCutSuffices` | lib/lzma/C/LzFind.c:322-334 | with a cut value of at least the history size no walk along a chain is cut short |
| `LzChainLongest.EveryRunFindsLongest` | lib/lzma/C/LzFind.c:586-719 | Hc4: so it is in every answer of every run from Init; in a run without a cut every answer holds the longest match of the window, and for each length of four or more the closest, and a wide cut value makes every run one of these |
| `LzRuns.StepKeepsSound` | lib/lzma/C/LzFind.c:539-719 | in any reachable state any call leads to a reachable state, the same for both kinds of call |
| `LzRuns.EveryRunIsTrue` | lib/lzma/C/LzFind.c:271-283 | all reports of every run of calls from Init are true matches, whatever the reference array held before and however the stream is delivered |
| `LzRuns.LooksAhead` | lib/lzma/C/LzFind.c:57-121 | over a stream that gives something wherever it has more, the limit of a call is the longest match length, or all that the stream has left |
| `LzRuns.EveryRunSeesAll` | lib/lzma/C/LzFind.c:246-283 | over such a stream a run from Init answers one call for each byte of it, to the last, each with this limit |
| `LzWalks.GetMatchesSpec1` | lib/lzma/C/LzFind.c:353-406 | the loop over son and buffer refines the reporting walk and reads no byte outside the window |
| `LzWalks.SkipMatchesSpec` | lib/lzma/C/LzFind.c:408-456 | the loop over son and buffer refines the quiet walk |
| `LzWalks.FollowChain` | lib/lzma/C/LzFind.c:322-351 | the loop over the chain refines its functional form and stores one reference |
| `LzMachine.MatchFinder.constructor` | lib/lzma/C/LzFind.c:271-283 | the object begins in the initial state, with the stream in its buffer |
| `LzMachine.MatchFinder.ReadBlock` | lib/lzma/C/LzFind.c:57-90 | the buffer shows the stream as far as it has been read |
| `LzMachine.MatchFinder.MoveBlock` | lib/lzma/C/LzFind.c:92-98 | the bytes around the cursor are the same after the move |
| `LzMachine.MatchFinder.SetLimits` | lib/lzma/C/LzFind.c:246-269 | computes the limits of the transition system |
| `LzMachine.MatchFinder.Normalize3` | lib/lzma/C/LzFind.c:290-302 | every reference is lowered, or becomes 0 |
| `LzMachine.MatchFinder.CheckLimits` | lib/lzma/C/LzFind.c:311-320 | normalizes and reads exactly when the transition does |
| `LzMachine.MatchFinder.MovePos` | lib/lzma/C/LzFind.c:458-465 | takes the transition to the next position |
| `LzMachine.MatchFinder.HashCalc` | lib/lzma/C/LzHash.h:22-26 | the hashes are those of the stream at the cursor |
| `LzMachine.MatchFinder.GetMatches` | lib/lzma/C/LzFind.c:539-633 | takes the transition of a match call; its answer holds only true matches of the stream and passes over neither of the newest positions with the short hashes |
| `LzMachine.MatchFinder.Skip` | lib/lzma/C/LzFind.c:688-719 | takes one transition for each position skipped |
| `AutoIndexGrid.CountsWhatFits` | lib/cromfs-blockifier.cc:655-661 | the count is the number of multiples of the period at which a whole block fits, also for files shorter than a block |
| `AutoIndexGrid.GridIsExact` | lib/cromfs-blockifier.cc:688-701 | the offered grid has each fitting multiple of the period once and nothing else |
| `AutoIndexGrid.OffersCompose` | lib/cromfs-blockifier.cc:815-836 | one more call continues the grid without a gap or a repeat |
| `AutoIndexGrid.OffersAreNew` | lib/cromfs-blockifier.cc:815-836 | a call offers exactly the multiples at which a block fits now and did not fit before, each once |
| `AutoIndexGrid.RunOffersGrid` | lib/cromfs-blockifier.cc:620-632 | whatever the sizes in between, a run of calls offers the grid of its last size |
| `BlockStore.PutAppendedRaw` | lib/cromfs-fblockfun.cc:418-457 | an fblock only grows, by a suffix |
| `BlockStore.AppendStores` | lib/cromfs-fblockfun.cc:418-457 | after appending where the block fitted, the whole block stands at the chosen offset |
| `BlockStore.KeepsSurvives` | lib/cromfs-blockifier.cc:515-649 | no growth of fblocks changes what a stored block number denotes |
| `Blockifier.Blockifier.CreateReusingPlan` | lib/cromfs-blockifier.cc:127-187 | a plan is made if and only if the index has a place under the hash that really holds these bytes, and it names such a place |
| `Blockifier.Blockifier.TryAutoIndex` | lib/cromfs-blockifier.cc:663-686 | afterwards the index has a place for these bytes |
| `Blockifier.Blockifier.PredictiveAutoIndex` | lib/cromfs-blockifier.cc:489-513 | the place after a block is indexed if the fblock has that many bytes there, and no entry is lost |
| `Blockifier.Blockifier.AutoIndex` | lib/cromfs-blockifier.cc:815-836 | offers exactly the new multiples of the period at which a block fits; each is indexed afterwards, and no entry is lost |
| `Blockifier.Blockifier.FindFblockThatHasAtleastNbytesSpace` | lib/cromfs-fblockfun.cc:61-78 | the tightest fblock with enough room, or -1 when none has it |
| `Blockifier.Blockifier.TightestHoles` | lib/cromfs-blockifier.cc:332-356 | the tightest fblock with room and to spare, then the tightest with room if that is another one |
| `Blockifier.Blockifier.Candidates` | lib/cromfs-blockifier.cc:332-400 | these, then the latest fblocks that are not among them, the last first, up to the limit |
| `Blockifier.SafeIsFound` | lib/cromfs-blockifier.cc:215-294 | for a needle without a turbo trap, a whole occurrence in the fblock is one that the search finds |
| `Blockifier.Blockifier.FindOverlap` | lib/cromfs-blockifier.cc:215-294 | the best place so far never gets worse, always fits and stays within the limit; it adds nothing if the search finds the whole block here, no more bytes than any tail on the grid that does not fill the fblock, and no more than an append here if there is room and to spare |
| `Blockifier.Blockifier.CreateWritePlan` | lib/cromfs-blockifier.cc:332-460 | the place planned fits; of all candidates within the limit (and of those past it while nothing is found) none has the whole block where the search finds it, a tail or room for an append that would add fewer bytes, nor an append in an earlier fblock; a new fblock is begun only if none has room and to spare |
| `Blockifier.Blockifier.ExecuteReuse` | lib/cromfs-blockifier.cc:463-487 | the new number denotes the place, nothing stored changes, of the index exactly one occurrence of the entry used is gone, and the block right after it is indexed |
| `Blockifier.UsedEntryIsGone` | lib/cromfs-blockifier.cc:463-487 | a place indexed once, then used, is not indexed afterwards |
| `Blockifier.Blockifier.PutBlock` | lib/cromfs-blockifier.cc:515-598 | only the planned fblock grows, by the bytes that are missing, and its room is what the limit leaves, or none below the minimum |
| `Blockifier.Blockifier.IndexGrowth` | lib/cromfs-blockifier.cc:600-632 | when the fblock has outgrown the last indexed size, every multiple of the period at which a block fits is indexed that had not been before; no entry is lost |
| `Blockifier.Blockifier.IndexSizes` | lib/cromfs-blockifier.cc:600-632 | the same for every block size in use |
| `Blockifier.Blockifier.ExecuteWrite` | lib/cromfs-blockifier.cc:515-649 | the new number denotes the bytes in the grown fblock, every older number still denotes its own, no fblock exceeds its cap, no other fblock grows; no entry of the index is lost, and all sizes due are indexed |
| `Blockifier.Blockifier.StoreBlock` | lib/cromfs-blockifier.cc:1845-1869 | a block gets a number that denotes its bytes; one that the index holds makes no fblock grow and takes only its own entry from the index, any other follows a plan as above |
| `BlockNumbering.FoundOwns` | lib/cromfs-blockifier.cc:948-970 | when the found position leaves room for the block, the item found really owns the wanted block there |
| `BlockNumbering.FindStable` | lib/cromfs-blockifier.cc:948-970 | later entries of the list do not change what is found |
| `IdenticalBlocks.Prepass` | lib/cromfs-blockifier.cc:1168-1266 | collects exactly the hashes that two blocks of the run share |
| `IdenticalBlocks.UseIndex` | lib/cromfs-blockifier.cc:1370-1386 | by the index a copy is found exactly when there is one, whether all blocks are kept, only blanks, or only those whose hash recurs |
| `IdenticalBlocks.SpeedupStep` | lib/cromfs-blockifier.cc:1387-1422 | the same when a block waits unlisted until its hash comes again |
| `IdenticalBlocks.CollectStep` | lib/cromfs-blockifier.cc:1423-1447 | the same when all hashes are kept in one list |
| `IdenticalBlocks.RepeatsChain` | lib/cromfs-blockifier.cc:1550-1557 | leaving a copy out of the index is safe: what begins like a copy begins like the block copied |
| `IdenticalBlocks.FindIdentical` | lib/cromfs-blockifier.cc:1268-1696 | the list of each of the seven methods: with none it is empty; with the one for blanks, and with each of the five full ones, it names in order exactly the blocks (of the blanks, or of all) that begin an earlier block with the same hash that is cut no smaller and not hidden, each with the first such block |
| `IdenticalBlocks.ListedExactly` | lib/cromfs-blockifier.cc:1268-1696 | a block is in that list if and only if some earlier block passes the comparison |
| `IdenticalBlocks.ListByMethod` | lib/cromfs-blockifier.cc:1368-1448 | which blocks each method looks at: none, those that are blank, or all |
| `IdenticalBlocks.MethodsAgree` | lib/cromfs-blockifier.cc:1368-1448 | two methods that consider the same blocks make the same list |
| `IdenticalBlocks.FindsItsBlock` | lib/cromfs-blockifier.cc:948-970 | the list of first numbers leads to a block if and only if no empty source stands right before the source that the block begins |
| `IdenticalBlocks.RepeatsExactly` | lib/cromfs-blockifier.cc:1454-1557 | the comparison takes block n to begin block m if and only if it does, it is cut no larger, and m is not hidden in this way |
| `IdenticalBlocks.EqualBlockRepeats` | lib/cromfs-blockifier.cc:1525-1546 | so a block equal to an earlier one passes the comparison if and only if it is cut no larger and that one is not hidden |
| `IdenticalBlocks.EveryCopyIsListed` | lib/cromfs-blockifier.cc:1268-1696 | in such a list, without empty sources and with one block size, is every block (of the blanks, or of all) that equals an earlier one |
| `IdenticalBlocks.EmptySourceHidesBlock` | lib/cromfs-blockifier.cc:955-961 | an empty source and then two equal ones of one block: the list is empty |
| `IdenticalBlocks.LargerCutHidesBlock` | lib/cromfs-blockifier.cc:1525 | the same for two equal sources of one block, when the second is cut larger |
| `BlockSchedule.ReusedNumberFits` | lib/cromfs-blockifier.cc:1777-1829 | the number read back from where the earlier block wrote it stands for bytes that begin with this block |
| `BlockSchedule.ReadBackIsNumber` | lib/cromfs-blockifier.cc:1777-1829 | and it is the number that block got |
| `BlockSchedule.NumberItem` | lib/cromfs-blockifier.cc:1698-1882 | every block of the item gets a number for its bytes, copies share, and no older promise is broken |
| `BlockSchedule.EqualGetEqual` | lib/cromfs-blockifier.cc:1698-1882 | a block that equals an earlier one, cut alike and not hidden, has the same number |
| `BlockSchedule.FlushBlockifyRequests` | lib/cromfs-blockifier.cc:1137-1883 | every block of every source gets a number that denotes its bytes; without empty sources and with one block size equal blocks get equal numbers (all with the five full methods, the blanks with the method for blanks); the table of blocks grows by the blocks that are not listed, no more |
| `BlockSchedule.NumbersDescribe` | lib/cromfs-blockifier.cc:1698-1882 | such numbers describe the source to the reader byte for byte |
| `BlockReader.ReadBlock` | cromfs.cc:575-609 | copies what the fblock has of the block and leaves the rest of the target alone |
| `BlockReader.ReadFromOneFblock` | cromfs.cc:657-736 | fills exactly the target bytes that lie in the allowed fblock, and counts them |
| `BlockReader.PassesCompose` | cromfs.cc:657-736 | two batches of passes are one batch over their union |
| `BlockReader.PassesAreBatch` | cromfs.cc:657-736 | passes over any sequence of fblocks fill and count what one batch over their set does |
| `BlockReader.OrderDoesNotMatter` | cromfs.cc:832-876 | so the order in which fblocks are read does not matter |
| `BlockReader.CollectedCovers` | cromfs.cc:738-830 | the collected fblocks cover the request if and only if every block lies in a known fblock and no two needed fblocks share a bit |
| `BlockReader.RequiredFblocks` | cromfs.cc:738-830 | collects the fblocks a request needs, each once, except those whose bit was taken |
| `BlockReader.ReadFileData` | cromfs.cc:738-876 | counts the whole request if and only if every block lies in a known fblock and no two needed fblocks share a bit |
| `BlockReader.ReadsSource` | cromfs.cc:738-876 | for a described file the target holds exactly the requested slice of the source, and the count is its length |
| `BlockReader.SharedBits` | cromfs.cc:773-801 | with 64-bit words two fblocks share a bit exactly when they are 32 apart within one word; with 32-bit words never |
| `BlockReader.CommentBitsApart` | cromfs.cc:773-777 | with the bitset the comment describes no request loses a byte |
| `BlockReader.FewFblocksApart` | cromfs.cc:796-803 | nor does any with 64-bit words, while there are at most 32 fblocks |
| `BlockReader.WideBitsCollide` | cromfs.cc:796-803 | with 64-bit words a request that needs two fblocks 32 apart within one word loses bytes |
| `BlockReader.WideBitsLoseBytes` | cromfs.cc:796-803 | a file of two bytes, in fblocks 0 and 32, that is wholly there and cannot be read at once |
| `BlockSchedule.StoreAndRead` | lib/cromfs-blockifier.cc:1137-1883 | blockify, then read any part of any source with any cache and any bits for the needed fblocks: the count is whole if and only if no two needed fblocks share a bit, and then the target holds the bytes of that source |
| `BlockSchedule.CommentBitsReadWhole` | cromfs.cc:773-777 | with one bit for each fblock every such read is whole |
| `BlockSchedule.FewFblocksReadWhole` | cromfs.cc:796-803 | and so it is with 64-bit words and at most 32 fblocks |
| `BlockSchedule.WideBitsReadShort` | cromfs.cc:796-803 | with the masks of 64-bit words a read that needs two fblocks 32 apart within one word is not |
| `CompressedHash.CompressedHashLayer.FlushDirty` | lib/cromfs-hashmap_lzo.cc:182-234 | writing the cached bucket back changes no item |
| `CompressedHash.CompressedHashLayer.Load` | lib/cromfs-hashmap_lzo.cc:237-277 | another bucket is cached and no write is lost |
| `CompressedHash.CompressedHashLayer.Extract` | lib/cromfs-hashmap_lzo.cc:61-78 | returns the item as the finite map has it, and changes no item |
| `CompressedHash.CompressedHashLayer.Set` | lib/cromfs-hashmap_lzo.cc:81-101 | the finite map with one key set |
| `CompressedHash.CompressedHashLayer.Unset` | lib/cromfs-hashmap_lzo.cc:104-145 | the finite map with one key removed: no other item changes, not even a live zero, and the bucket ends with its last item that is not zero |
| `CompressedHash.CompressedHashLayer.Resize` | lib/cromfs-hashmap_lzo.cc:292-307 | the array only grows, and the map is unchanged |
| `CompressedHash.CompressedHashLayer.Merge` | lib/cromfs-hashmap_lzo.cc:312-329 | the map is overlaid with the other one, shifted by the offset |
| `CompressedHash.OneItemChanged` | lib/cromfs-hashmap_lzo.cc:104-145 | two buckets that read alike but for one item make tables that differ in one place |
| `RangeSet.ChangeDenotes` | lib/range.tcc:7-158 | setting or erasing a range changes the membership of exactly the indices of the range |
| `RangeSet.ChangeKeepsCanonical` | lib/range.tcc:7-158 | and leaves no changepoint without a change, the last of them nil |
| `RangeSet.OneFormOnly` | lib/range.hh:76 | equal sets have equal changepoints, so comparing the maps compares the sets |
| `RangeSet.RangesAreTheSet` | lib/rangeset.tcc:4-39 | the ranges that an iterator visits hold exactly the set |
| `RangeSet.RangeSet.Set` | lib/range.tcc:93-158 | the steps over the map compute the change those lemmas are about |
| `RangeSet.RangeSet.Erase` | lib/range.tcc:7-69 | the same for erasing |
| `RangeSet.RangeSet.Find` | lib/range.tcc:160-178 | true exactly for members |
| `RangeSet.LastIndexExact` | lib/cromfs-hashmap_lzo.cc:81-85 | setting the last index of the type, whose end wraps to 0, adds just that index if and only if neither index 0 is live nor a range that ends right before it |
| `RangeSet.LastIndexIsLost` | lib/cromfs-hashmap_lzo.cc:81-85 | after its neighbour has been set, setting index 2^32 - 1 has no effect |
| `RangeSet.LastEraseExact` | lib/cromfs-hashmap_lzo.cc:104-145 | erasing the last index of the type takes out just that index if and only if no range begins right at it |
| `RangeSet.LastIndexStays` | lib/cromfs-hashmap_lzo.cc:81-145 | the last index, set alone and then erased, is still there |
| `SparseHash.SetModels` | lib/cromfs-hashmap_lzo_sparse.cc:46-64 | setting inside a stripe keeps the layout and sets the key of the map |
| `SparseHash.UnsetModels` | lib/cromfs-hashmap_lzo_sparse.cc:206-219 | unsetting inside a stripe removes the key |
| `SparseHash.ExtendModels` | lib/cromfs-hashmap_lzo_sparse.cc:144-203 | lengthening a stripe keeps layout and map |
| `SparseHash.JoinModels` | lib/cromfs-hashmap_lzo_sparse.cc:106-125 | joining two neighbouring stripes keeps layout and map |
| `SparseHash.InsertModels` | lib/cromfs-hashmap_lzo_sparse.cc:144-203 | a new stripe more than three granules from its neighbours adds one key |
| `SparseHash.PrependModels` | lib/cromfs-hashmap_lzo_sparse.cc:144-203 | a stripe that begins earlier adds one key |
| `SparseHash.CompressedHashLayerSparse.Locate` | lib/cromfs-hashmap_lzo_sparse.cc:206-236 | finds the stripe that contains an index, or that none does |
| `SparseHash.CompressedHashLayerSparse.ShortestGap` | lib/cromfs-hashmap_lzo_sparse.cc:86-104 | the neighbours joined are the first with the shortest gap as computed in 32 bits |
| `SparseHash.CompressedHashLayerSparse.JoinNext` | lib/cromfs-hashmap_lzo_sparse.cc:106-125 | one stripe fewer, the map and all invariants as before |
| `SparseHash.CompressedHashLayerSparse.CloseShortestGap` | lib/cromfs-hashmap_lzo_sparse.cc:86-125 | the stripes afterwards are those before with the ones at the shortest gap joined |
| `SparseHash.CompressedHashLayerSparse.AddNear` | lib/cromfs-hashmap_lzo_sparse.cc:146-203 | a new granule joins the stripe before, the one after, both or none: the bounds of all stripes afterwards |
| `SparseHash.CompressedHashLayerSparse.Set` | lib/cromfs-hashmap_lzo_sparse.cc:46-203 | the finite map with one key set, and where each stripe lies afterwards: a stripe moves only for a new index, which joins its neighbours at most three granules away, and the shortest gap is closed exactly when it joins none and there are 2048 stripes |
| `SparseHash.CompressedHashLayerSparse.Unset` | lib/cromfs-hashmap_lzo_sparse.cc:206-219 | the finite map with one key removed |
| `SparseHash.CompressedHashLayerSparse.Extract` | lib/cromfs-hashmap_lzo_sparse.cc:30-43 | the value of a live key |
| `SparseHash.CompressedHashLayerSparse.Has` | lib/cromfs-hashmap_lzo_sparse.cc:222-236 | true exactly for the keys of the map |
| `Endian.GetNReads` | lib/endian.hh:102-118 | every width read through the falling cases is the little-endian number of its bytes |
| `Endian.PutN` | lib/endian.hh:162-176 | every width written through the falling cases is the little-endian bytes of the number, and nothing else is written |
| `Endian.PutThenGet` | lib/endian.hh:102-176 | a number comes back exactly when it fits the width |
| `Endian.LowByteFirst` | doc/FORMAT:15-19 | the lowest byte comes first |
| `DirectoryFormat.CalcEncodedDirectorySize` | lib/cromfs-directoryfun.cc:29-45 | the predicted size is the size of the encoding |
| `DirectoryFormat.EncodeDirectory` | lib/cromfs-directoryfun.cc:47-79 | the loops produce the encoding: count, offsets, entries |
| `DirectoryFormat.EntryLayout` | doc/FORMAT:148-150 | an entry is eight bytes of inode number, the name and a NUL |
| `DirectoryFormat.LessAtFirstDifference` | doc/FORMAT:164-165 | names are in order by the byte at which they first differ, a prefix first |
| `DirectoryFormat.EntryAt` | lib/cromfs-directoryfun.cc:47-79 | between two offsets lies exactly the entry |
| `DirectoryFormat.PointerAt` | lib/cromfs-directoryfun.cc:47-79 | pointer k read back is the offset of entry k |
| `DirectoryReader.LookupInFile` | cromfs.cc:1025-1153 | the binary search over a lazily read offset table gives the inode number of the name, or 0, for every encoded directory and every name |
| `DirectoryReader.LookupIsMembership` | cromfs.cc:1025-1153 | a number other than 0 comes from the entry of that name, and 0 means there is none or its number is 0 |
| `DirectoryReader.ListFile` | cromfs.cc:893-1023 | exactly the requested slice of the sorted directory if its names begin within 2 GiB of the first one, else EIO |
| `DirectoryReader.LongListingFails` | cromfs.cc:893-1023 | a directory of two names, the first of 2 GiB: each can be listed, both at once cannot |
| `DirectoryReader.GetDirinfoPortion` | cromfs.cc:878-891 | exactly the requested slice |
| `DirectoryReader.DirectoryTree.ReadDir` | cromfs.cc:893-1023 | the same slice whether cached or not, and the cache stays right |
| `DirectoryReader.DirectoryTree.DirLookup` | cromfs.cc:1025-1153 | the same number whether the listing is cached or not |
| `Arithmetic.BlockExists` | lib/cromfs-inodefun.cc:126-129 | block i of a file exists exactly when its first byte does |
| `InodeFormat.TableSizeIsProduct` | cromfs-defs.hh:188-195 | the room for block numbers, taken case by case, is the product the macros compute |
| `InodeFormat.BlocknumSizes` | doc/FORMAT:59-63 | a block number takes four bytes, three or two; both options together would leave one |
| `InodeFormat.HeaderLayout` | doc/FORMAT:123-135 | which field of an inode stands at which offset, and in how many bytes |
| `InodeFormat.NumberLayout` | doc/FORMAT:132-144 | block number k stands k widths after the header |
| `InodeFormat.PutInode` | lib/cromfs-inodefun.cc:35-61 | writes the encoding of the inode at its place and nothing else |
| `InodeFormat.GetInode` | lib/cromfs-inodefun.cc:63-110 | EIO exactly when a known size is too small; otherwise header and block numbers as they stand |
| `InodeFormat.HeaderRoundTrip` | lib/cromfs-inodefun.cc:35-110 | the header comes back if and only if every field fits; a device gets one link, all else rdev 0 |
| `InodeFormat.NumbersRoundTrip` | lib/cromfs-inodefun.cc:54-110 | the block numbers come back if and only if they fit the width, at any width |
| `InodeFormat.InodeRoundTrip` | lib/cromfs-inodefun.cc:35-110 | a whole inode with as many blocks as its size demands is readable, and comes back if and only if its numbers fit |
| `InodeFormat.IncrementInodeLinkcount` | lib/cromfs-inodefun.cc:112-124 | only the link count is written, and not for devices |
| `InodeFormat.OneMoreLink` | lib/cromfs-inodefun.cc:112-124 | in place, the encoding becomes that of the inode with one more link |
| `InodeNumbers.InodeFitsSlot` | util/mkcromfs.cc:618-626 | the room planned for an inode is enough for the inode later made |
| `InodeNumbers.FileTypes` | util/mkcromfs.cc:708-730 | the six file types of the system and what each is taken for |
| `InodeNumbers.InodeOffsets` | doc/FORMAT:154-158 | the inode of number n begins at (n - 2) * 4 |
| `InodeNumbers.AssignNumbers` | util/mkcromfs.cc:586-628 | each entry gets the number of its file, the first entry of each file the data, and the table size is that of all slots |
| `InodeNumbers.LayoutIsSound` | util/mkcromfs.cc:586-628 | slots of different files are disjoint and inside the table if and only if the first slot fits, which a table that ends on a multiple of 4 grants |
| `InodeNumbers.NumbersAreUnique` | util/mkcromfs.cc:586-628 | two entries share a number exactly when device and inode agree |
| `InodeNumbers.SlotInPlace` | util/mkcromfs.cc:612-626 | every slot is 4-aligned and in order |
| `InodeTable.WriteInodes` | util/mkcromfs.cc:646-756 | every file has its inode at its slot, and older inodes are as before |
| `InodeTable.CountLinks` | util/mkcromfs.cc:758-768 | every file has its inode with as many links as names were counted |
| `InodeTable.RepeatsCountNames` | util/mkcromfs.cc:758-768 | the links added and the first one are as many as the names |
| `InodeTable.LinkedTells` | util/mkcromfs.cc:690-740 | the inode of a file says what lstat did: mode, time, owner, group, block size, the device of a device and 0 otherwise, the size of its data, a link for each name, and for a directory one for each entry and each further name |
| `InodeTable.WalkRootDir` | util/mkcromfs.cc:586-768 | both together, from the table as it was |
| `InodeTable.EveryNameFindsItsInode` | util/mkcromfs.cc:586-768 | the header read through any name of any file has these fields, one by one, from the entry of this file |
| `InodeTable.NumbersFillSlot` | util/mkcromfs.cc:734-745 | block numbers written into the room after the header complete the inode |
| `Filesystem.RowStored` | util/mkcromfs.cc:734-745 | the numbers of one file complete its inode and change the inode of no other file |
| `Filesystem.StoreNumbers` | util/mkcromfs.cc:734-745 | after all rows are written every file has its whole inode, links and numbers, and the older part of the table is as before |
| `Filesystem.Build` | util/mkcromfs.cc:792-925 | inodes, then the data of all files, then their numbers, then the table itself: the volume describes every file and the table to the reader, under the numbers in the table |
| `ImageReader.InodesReadable` | cromfs.cc:796-803 | with one bit for each fblock, or with 64-bit words and at most 32 fblocks, no read of the inode table needs two fblocks that share a bit |
| `ImageReader.ReadInodeAndBlocks` | cromfs.cc:517-573 | where neither of its two reads needs two fblocks that share a bit: from the stored inode table the header and, up to a hundred million of them, the block numbers that stand there |
| `ImageReader.TableGivesInode` | cromfs.cc:517-573 | under the number of any entry those are the header and numbers of the inode made for its file |
| `ImageReader.ReadMade` | cromfs.cc:517-573 | so the reader, asked for that number, gets that inode with all its block numbers |
| `ImageReader.MadeTells` | cromfs.cc:490-573 | that inode says of the file what its entry does, and its size is that of the data |
| `ImageReader.ReadByNumber` | cromfs.cc:490-573 | by the number of any entry the reader gets an inode whose fields are, one by one, those of its entry, with one link for each of its names; any read of its bytes is whole if and only if no two fblocks it needs share a bit |
| `PathLookup.LookupIsChild` | cromfs.cc:1025-1153 | the number that a directory gives for a name is that of the entry the tree has under this name, and 0 when it has none |
| `PathLookup.PieceIsRead` | cromfs.cc:1033-1108 | a piece of a directory read on its own is what it is in the whole |
| `PathLookup.DirLookup` | cromfs.cc:1025-1153 | for an image of a tree: the number of the entry one name further, ENOTDIR for what is no directory, 0 for a name that is not there |
| `PathLookup.FollowPath` | fuse-ops.cc:139-165 | one lookup for each name of a path gives the number of the entry that the tree has at the end of this path, and 0 if and only if there is none |
| `PathLookup.ReadByPath` | fuse-ops.cc:139-165 | from a path to the inode of the file it leads to, its fields one by one those of the entry there, and to any part of its bytes, whole if and only if no two fblocks it needs share a bit |
| `PathLookup.PlacesReadable` | cromfs.cc:796-803 | with one bit for each fblock, or with 64-bit words and at most 32 fblocks, no path of an image whose inodes fit their format is closed to these reads |
| `PathLookup.ListingEncodes` | util/mkcromfs.cc:630-756 | filling numbers into a directory leaves its size as planned |
| `PathLookup.FilledIsStored` | util/mkcromfs.cc:630-756 | the directories filled in are stored as those of the tree, each name with the number of its entry |
| `PathLookup.SameMarks` | util/mkcromfs.cc:586-628 | there is one way to number a tree |
| `PathLookup.BuildTree` | util/mkcromfs.cc:586-925 | from a tree with its names to an image: the volume describes every file, the inode table and the directories, which lead from each name to the number of its entry |
| `SparseWrite.IsZeroBlockEasy` | lib/sparsewrite.cc:309-313 | the loop kept beside the fast test is true exactly of zeros |
| `SparseWrite.IsZeroBlockIsEasyIff` | lib/sparsewrite.cc:307-318 | the test for zeros by memchr agrees with the easy one kept beside it if and only if the block is empty or has bytes of both kinds |
| `SparseWrite.SparseWrite` | lib/sparsewrite.cc:352-414 | writes exactly the bytes of the chunks that do not pass the test, and those of the first run, and touches no other place |
| `SparseWrite.FirstRunIsRemainder` | lib/sparsewrite.cc:389-390 | the first run reaches to the position plus 1023 with bit 1024 cleared, the difference taken modulo 2^64, or takes everything when that is less |
| `SparseWrite.ReadsAsIff` | lib/sparsewrite.cc:352-414 | over zeros the file reads as the buffer if and only if all bytes left out are zeros |
| `SparseWrite.EasyTestReadsAs` | lib/sparsewrite.cc:309-314 | with the easy test nothing is lost |
| `SparseWrite.CompiledTestReadsAsIff` | lib/sparsewrite.cc:315-318 | with the test as compiled the file reads as the buffer if and only if every chunk after the first run has a zero byte |
| `SparseWrite.OnesAreLost` | lib/sparsewrite.cc:352-414 | of 1024 bytes of value 1 written to the start of a file the last one is lost |
| `PoolAllocator.FreshUnit` | lib/fsballocator.hh:143-159 | a unit taken from the end is new, names its block and leaves the others as they were |
| `PoolAllocator.ReusedUnit` | lib/fsballocator.hh:160-166 | a unit taken from the free list was not live |
| `PoolAllocator.FreedUnit` | lib/fsballocator.hh:169-173 | a unit given back joins the free list, and only its first word changes |
| `PoolAllocator.MemBlock.Allocate` | lib/fsballocator.hh:143-167 | hands out a unit that is not live and keeps live, free and fresh units a partition |
| `PoolAllocator.MemBlock.Deallocate` | lib/fsballocator.hh:169-176 | takes the unit back; the memory goes with the last one |
| `PoolAllocator.OwnerWrites` | lib/fsballocator.hh:143-176 | an owner may write any word of a live unit: the partition and the free list threaded through free units survive |
| `PoolAllocator.AllocateOk` | lib/fsballocator.hh:213-233 | the list of blocks with room stays exact when a block fills |
| `PoolAllocator.DeallocateOk` | lib/fsballocator.hh:235-250 | and when a full block gets room again |
| `PoolAllocator.ElemAllocator.Allocate` | lib/fsballocator.hh:213-233 | hands out a unit nobody holds; every word that any owner has written stays, and a block is added only when all are full |
| `PoolAllocator.ElemAllocator.Store` | lib/fsballocator.hh:213-250 | a write by an owner keeps the whole pool valid and changes the words of no other unit |
| `PoolAllocator.ElemAllocator.StoredIndex` | lib/fsballocator.hh:235-245 | the index in a live unit is that of its own block |
| `PoolAllocator.ElemAllocator.Deallocate` | lib/fsballocator.hh:235-250 | takes back just that unit; every word that any other owner has written stays |
| `PoolAllocator.ElemAllocator.LiveUnitsApart` | lib/fsballocator.hh:213-250 | two live units never share a word |

## Left out

- I/O, memory mapping, clocks, options and console output; files and streams are sequences of bytes or parameters.
- Threads: every loop runs in order. The only independence of order claimed is that of the reader's passes.
- The LZMA coder and LZO: a pair of functions that undo each other.
- The body of `backwards_match_len`, which is taken by its reference code.
- CompressedHash.CompressedHashLayer.Set: takes the live indices as a set, which `RangeSet` shows its changepoints to
  be for all indices below 2^32 - 1; what setting that last one does is said by `RangeSet.LastIndexExact`.
- CompressedHash.CompressedHashLayer.Unset: the same; what erasing index 2^32 - 1 does is said by
  `RangeSet.LastEraseExact`.
- In the match finder: directInput, the 2- and 3-byte variants, big hashes and memory allocation. Distances are a
  sequence of pairs rather than an array filled two words at a time; hash and son are two arrays rather than two
  parts of one.
- Needles of length 0, which no caller has.
- AppendSearch.AnalyzeAppend: in the branch that uses the turbo search, the full match is the one that search finds,
  which need not be the first.
- Blockifier.Blockifier.FindOverlap: does not say that the plan adds the fewest bytes of all places, which is false: the
  strict bound of the tail search keeps an overlap that exactly fills the fblock from being on offer, and the turbo
  search may miss a full one, if the needle has a trap.
- Blockifier.Blockifier.IndexGrowth: says of the multiples indexed by an earlier call only that no entry is lost here: an
  entry that has been used for a block is gone (`UsedEntryIsGone`), and the source does not index its place again.
- The list of identical blocks kept in a file between runs, the cache of open sources, and the order of the schedule,
  which is a parameter. The index gives the blocks of one hash in the order they were added.
- Filesystem.Build: block numbers are written into the slots after the pass rather than during it. The root inode is
  written on its own and not read back.
- PathLookup.BuildTree: the place of the root directory is handed on from the pass, as its inode is not read back.
- PathLookup.DirLookup: reads a directory at once; `PieceIsRead` says that reading it piece by piece gives the same.
  The cache of listings is left to `DirectoryReader`.
- ImageReader.ReadInodeAndBlocks: a read of the inode table that needs two fblocks with the same bit is outside its
  contract; the source goes on with whatever its header buffer held, and with zeros for block numbers.
- Which blocks count as blanks for the method that looks only at those: a parameter. The program passes the test that
  `SparseWrite` is about.
- `SpecialAutoIndex`, whose rules are all compiled out.
- File sizes and offsets whose sum does not fit 64 bits, and block numbers or fblock numbers beyond 32 bits.
- The eviction of cached listings and fblocks: a cache may hold any part of the truth.
- DirectoryReader.ListFile: says nothing of files that are no encoded directory but that reading them is safe; there
  the source's search for the end of a name may look 8 bytes further than its buffer, the model's does not.
- SparseHash.CompressedHashLayerSparse.Set: a call after which one stripe covers all 2^32 indices, with the last of
  them live, is outside its contract: there the successor of the last index wraps, and `RangeSet.LastIndexExact` says
  what marking it live then does.
- Faults of the disk while writing, and 64-bit offsets that wrap in `SparseWrite` other than as its first run says.
- Collecting the tree from disk (step 1) and sort keys: an entry has the size and block size its path would get.
- InodeNumbers.AssignNumbers: entries of one file with different sizes get the slot of the first one.
- The padding to 4 bytes of an inode encoded on its own (`GetInodeSize`), which only the root and table inodes use.
- The optional sweep of unused pool memory, and running out of memory.
