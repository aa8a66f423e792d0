# The hard core of an Inferno emulator, modelled and proved

This project models four cores of the Inferno emulator and its cryptographic library, and the
properties they are built for. `dafny verify dfyconfig.toml` checks all of it.

**tinyfs** (`Tinyfs*.dfy`), a file system that only appends, on 48-byte blocks with a byte sum.
The class `Tfs` holds the medium as a sequence of raw blocks, the bitmap as bytes and the file
table; a ghost history holds the medium after every single block write. Mounting, appending,
reading, creating, removing and replacing are methods; what a medium means is a function of its
blocks (`TinyfsMedium`), and the theorems about scans and commits are lemmas about that.

**The pool allocator** (`Pool*.dfy`), best fit over boundary tags. Blocks are addresses in a map
of headers; tails point back at headers; the class `Pool` changes the links step by step as the
source does. The invariant `Valid` says that the free blocks are exactly those in one ordered
tree of rings with right parent links, that arenas are tiled, that tails point at headers, that no
two free blocks are adjacent, that one counter is the total of the live blocks, and that the other,
within the pool's limit, is the total of the arenas and of what the system refused.

**The number library** (`Words` to `Dss`), word arrays with sign and length: long and Karatsuba
multiplication, remainder by Knuth's Algorithm D, Montgomery reduction, windowed and fixed-base
powers, and DSS on top. Numbers are classes with an array that may be replaced by a larger one;
values are sums of words times powers of 2^32, and carries are explicit.

**Protocols.** `Baton` and `Mux` are step systems: the steps are the stretches under a lock, the
meetings and the sleeps, a run is any sequence of enabled steps, and the classes `Isched` and
`Mnt` perform the locked stretches on their own fields. `StyxMessage`, `StyxCodec` and
`StyxStream` are the file protocol's messages, their conversion field by field, and reading them
off a stream that arrives in pieces; `StyxBytes` tells where each field of each type stands.
`HashBlock` and `Digest` are MD5 and SHA, block by block and over any cutting of a message into
calls; `HashVectors` proves the digests the standards print.

Where the code differs from what it promises, the code is what is modelled:

- Appending to a file whose last block is an empty end block behind full ones makes that block
  count as full: 44 zeros come between the old bytes and the new (`BadTailExample`). Such a file
  comes from another writer only. Appending is exact if and only if the tail is good, which the
  length and the number of blocks tell (`WholeByLength`).
- A new file that gets the table entry of a nameless directory found at mount keeps that entry's
  length (`NewFile`); it starts as an empty file if and only if that length is 0
  (`StaleLengthExample`).
- Subtracting in place loses a borrow that has to go further than one word; the result is then
  off by a known power (`BigSub`, `BorrowLostExample`). No use in the remainder or in Montgomery
  reduction does so.
- The multiplying loop stores a carry behind the words it asked room for, where the allocator has
  a word of its own. When the room grows next that word is not kept. Montgomery reduction of T
  does so if and only if T is large enough for its room (`Leaves`, `LeavesIff`), and the outcome is
  then wrong unless the new memory happens to hold the carry (`Redc`): so it is for the square of
  N - 1 modulo N = 2^64 - 1 (`CarryLost`), the first squaring on the way to N - 1 to the 0x12
  (`SecondNibbleSpills`). A word to spare is enough (`TopNotFull`); products of two numbers of fewer
  than 64 words leave one, and every reduction leaves room for all that follow by that modulus, so
  that a power is exposed in its first squaring, the table of a fixed base in its first two, and
  only for moduli of 64 words or more in first products (`Secure`, `G16BigPow`, `BrickellBigPow`).
- Dividing two words by one without its top bit shifts the quotient down once too often
  (`LongBigDivide`). No caller modelled here does so.
- A remainder is the modulus itself, not 0, when the dividend is the modulus shifted up by whole
  words (`BigMod`); so powers, and DSS, are proved with "at most" and the cases told apart.
- The table of message lengths lacks the two session types, so that the lengths of both attach
  messages stand two places early and the decoder takes an attach message from its third byte on
  (`TableLengths`, `BegunIsRefused`). A stream is read right if and only if no read ends inside
  such a head (`FrontIsDelivered`). The manual says that a malformed message gives 0; the code gives
  -1 for an unknown type, and returns the length taken, not the length passed.
- The decoder ignores the upper half of an offset, and the encoder leaves the pad byte unwritten.
- The hashes count in one 32-bit word (`CountRight`).
- A failed request to the system for memory leaves the pool's arena counter raised: the counter is
  the total of the arenas and of all that was refused (`GrownWithin`), and the pool's limit is on
  that sum.

## Model

| member | source | states |
|---|---|---|
| `TinyfsBlock.Checksum` | emu/devtinyfs.c:90-100 | the byte sum of a block modulo 256, in a loop |
| `TinyfsBlock.DataRoundTrip` | emu/devtinyfs.c:158-222 | a data block as it is sealed and written reads back as data leading to the next block, padded with zeros to 44 bytes |
| `TinyfsBlock.EndRoundTrip` | emu/devtinyfs.c:158-222 | an end block reads back as just its bytes, for every length up to 44 |
| `TinyfsBlock.DirRoundTrip` | emu/devtinyfs.c:141-156 | a directory block reads back as the name cut to 27 bytes, the owner and the first block |
| `TinyfsBlock.FreedIsJunk` | emu/devtinyfs.c:269-286 | a wiped directory block, 0x55 in each byte, is no block at all to a scan |
| `TinyfsBlock.DamageIsFound` | emu/devtinyfs.c:141-171 | a block whose bytes sum to zero modulo 256, with any one byte changed to any other value, is no block at all to a scan |
| `TinyfsBlock.DecodedBytes` | emu/devtinyfs.c:58-81 | what a block means, told from its bytes: 100, 68 or 101 in the first, numbers low byte first, the name from the sixth byte on, the data from the fourth; and only if the sum is right and the numbers are in range |
| `TinyfsBlock.DirBytes` | emu/devtinyfs.c:224-242 | the bytes of a directory block as it is written |
| `TinyfsBlock.DataBytes` | emu/devtinyfs.c:198-222 | the bytes of data and end blocks as they are written |
| `TinyfsBitmap.SomeBitClear` | emu/devtinyfs.c:120-139 | a byte that is not 0xff has a clear bit, so that the byte-wise search may look for one there |
| `TinyfsBitmap.Bitmap.Alloc` | emu/devtinyfs.c:120-139 | takes the lowest free block and marks it, and nothing else; NOTABNO just when all are used; never a block past the end |
| `TinyfsBitmap.Bitmap.Set` | emu/devtinyfs.c:108-112 | marks exactly block b |
| `TinyfsBitmap.Bitmap.Clear` | emu/devtinyfs.c:102-106 | unmarks exactly block b |
| `TinyfsMedium.ChainUnique` | emu/devtinyfs.c:383-439 | a block has at most one chain from it to an end block |
| `TinyfsMedium.ChainAcyclic` | emu/devtinyfs.c:383-439 | a chain never visits a block twice |
| `TinyfsMedium.ScanRecovers` | emu/devtinyfs.c:358-440 | on any medium, what a scan leaves has whole, acyclic, pairwise disjoint chains; the files left are exactly those kept, each with the name and bytes it had |
| `TinyfsMedium.ScanOfCleanIsIdentity` | emu/devtinyfs.c:358-440 | a scan of a clean medium purges nothing |
| `TinyfsMedium.ScanIdempotent` | emu/devtinyfs.c:358-440 | scanning twice is scanning once |
| `TinyfsMedium.ScanResumes` | emu/devtinyfs.c:358-440 | a scan cut short after any entry, and started again, comes to the same medium |
| `TinyfsMedium.DamagedIsDropped` | emu/devtinyfs.c:358-440 | a file with one byte damaged in its directory block or in any block of its chain is not kept by a scan |
| `TinyfsWalk.WalkIsPrefix` | emu/devtinyfs.c:396-420 | the blocks followed so far are a proper prefix of the chain, if there is one |
| `TinyfsWalk.CycleHasNoChain` | emu/devtinyfs.c:396-420 | blocks on a cycle, and those that lead into it, have no chain: the walk into a marked block finds a broken file |
| `TinyfsTable.StuckIsNotKept` | emu/devtinyfs.c:396-420 | a walk that stops at a block taken or not valid belongs to a file that is not kept |
| `TinyfsTable.EndedIsKept` | emu/devtinyfs.c:421-436 | a walk over unowned blocks to a valid end block belongs to a kept file, whose chain it is and whose length it gives |
| `TinyfsTable.MountOk` | emu/devtinyfs.c:358-440 | after the last entry the table lists just the kept files with their true lengths, and everything they own is marked |
| `TinyfsTable.StaleLengthExample` | emu/devtinyfs.c:303-356 | a medium with a nameless directory of one byte: the scan leaves a table entry without a name but with a length, the first a new file would take |
| `Tinyfs.Tfs.constructor` | emu/devtinyfs.c:358-440 | mounting any medium of 3 to 65535 blocks ends in a valid state whose medium is the scan of what was there, and whose table lists exactly the kept files; the bytes of their directory blocks and of all blocks of their chains sum to zero; none is open or marked; after each of its block writes another scan would come to the same end |
| `Tinyfs.Tfs.Walk` | emu/devtinyfs.c:396-420 | marks the full blocks on the way, which are fresh, and stops at the end block, at a taken block or at an invalid one, telling which |
| `Tinyfs.Tfs.FollowFile` | emu/devtinyfs.c:390-438 | one file of the scan: kept with its length, or purged from table, medium and map; the map then counts directories, kept chains and blocks that lead nowhere |
| `Tinyfs.Tfs.WriteData` | emu/devtinyfs.c:198-222 | one block write: the medium then has this data or end block there |
| `Tinyfs.Tfs.FreeBlocks` | emu/devtinyfs.c:245-267 | unmarks exactly the blocks of the run up to its bound |
| `Tinyfs.Tfs.FreeFile` | emu/devtinyfs.c:269-286 | wipes the directory block with one write, blanks the entry and unmarks the run and the directory block |
| `TinyfsCommit.Untouched` | emu/devtinyfs.c:826-855 | writes to blocks nothing owns change no file and keep the medium clean |
| `TinyfsCommit.CommitTail` | emu/devtinyfs.c:860-882 | rewriting the last block of a file so that it leads on to a new chain changes that file only, which gets the new bytes, in one write |
| `TinyfsCommit.CommitDir` | emu/devtinyfs.c:224-242 | writing a directory block that leads to a new chain creates or changes that file only |
| `TinyfsCommit.CommitRemoval` | emu/devtinyfs.c:269-286 | overwriting a directory block with anything else removes that file only |
| `TinyfsAppend.AppendBytes` | emu/devtinyfs.c:826-890 | old content, the gap if any, and the new data are what the rewritten tail and the new chain hold together |
| `TinyfsAppend.WholeByLength` | emu/devtinyfs.c:860-882 | whether the tail is good can be told from the length and the number of blocks |
| `TinyfsAppend.BadTailExample` | emu/devtinyfs.c:860-882 | a medium on which an append puts 44 zeros between old and new bytes: the file ends in an empty end block behind a full one |
| `TinyfsAppend.CommitIsCrashSafe` | emu/devtinyfs.c:826-890 | writes nobody can see, followed by one that commits, leave at every moment either all files as before or all as after |
| `Tinyfs.Tfs.WriteBlocks` | emu/devtinyfs.c:828-855 | writes the data from the next block boundary on, last block first, into free blocks, unseen; succeeds just when there are enough free blocks |
| `Tinyfs.Tfs.PutBlock` | emu/devtinyfs.c:828-855 | puts one block in front of the chain built so far; fails just when the medium is full |
| `Tinyfs.Tfs.Write` | emu/devtinyfs.c:796-907 | append: AppendOnly just when the offset is not the length, OutOfSpace just when too few blocks are free, and then all files are as before; else this file has old ++ new when its tail was good (old ++ 44 zeros ++ new otherwise), all others are as before, and after every prefix of the block writes a scan keeps the medium as it is and finds either the files before or the files after |
| `Tinyfs.Tfs.Read` | emu/devtinyfs.c:716-784 | exactly the slice of the file's bytes from the offset, cut at its end |
| `Tinyfs.Tfs.Seek` | emu/devtinyfs.c:738-752 | finds the block of the chain that holds the offset |
| `TinyfsRemove.BlockBytes` | emu/devtinyfs.c:716-784 | block k of a file holds its bytes from 44 * k on |
| `Tinyfs.Tfs.NewFile` | emu/devtinyfs.c:303-356 | takes the first entry without a name, with the owner given, and allocates a directory block no scan can see yet; no file changes; fails just when the medium is full, and the entry is then blank; the entry starts empty just when it was not one left over with a length |
| `Tinyfs.Tfs.Remove` | emu/devtinyfs.c:637-650 | removes this file from medium, table and map, with a single block write, and changes no other |
| `Tinyfs.Tfs.Close` | emu/devtinyfs.c:660-697 | the last close of a file being created removes those of its name that are not open and marks the open ones for removal, so that no other entry of its name is left but open and marked, and no file of another name changes; at every moment the medium holds the files of before but for those removed |
| `TinyfsRemove.EntryRemoved` | emu/devtinyfs.c:269-286 | the table stays sound and the other files as exact as they were |
| `PoolTree.FindCtx` | emu/alloc.c:104-181 | every node of the tree is found with its parent link and the path above it |
| `PoolTree.SuccessorOrdered` | emu/alloc.c:146-168 | the leftmost block of the right subtree in place of the root keeps the search order |
| `PoolDelete.MemberDeleted` | emu/alloc.c:108-112 | unlinking a ring member leaves the tree and the rings right, without it |
| `PoolIndex.HeadDeleted` | emu/alloc.c:114-139 | promoting the next ring member and unlinking the head leaves tree, order and rings right, without the head |
| `PoolIndex.AloneDeleted` | emu/alloc.c:141-181 | a block alone of its size goes, with its subtrees put together again, and all other blocks stay free |
| `PoolAllocator.Pool.PullSuccessor` | emu/alloc.c:146-168 | finds the successor and hands it both subtrees, still ordered, with the same blocks |
| `PoolAllocator.Pool.PoolDel` | emu/alloc.c:103-181 | takes out precisely t in each case (ring member, ring head, leaf, one child, two children): one ordered tree with right parent links and one ring per size remains, and no block that was not free is touched |
| `PoolInsert.LeafAdded` | emu/alloc.c:206-226 | a block of a new size hangs where the order wants it |
| `PoolInsert.MemberAdded` | emu/alloc.c:207-212 | a block of a size there is joins that ring behind its head |
| `PoolAllocator.Pool.PoolAdd` | emu/alloc.c:183-226 | adds precisely q to the free blocks, marked free, keeping tree and rings right and touching no block in use |
| `PoolInsert.BestIsBest` | emu/alloc.c:239-255 | the search path ends at the smallest block of the tree that fits, or at none when none fits |
| `PoolState.BestOfFree` | emu/alloc.c:239-255 | the best node of the tree is a best fit among all free blocks, rings included |
| `PoolAllocator.Pool.Search` | emu/alloc.c:239-255 | returns a best fit, or NIL just when nothing fits |
| `PoolArena.TiledReaches` | emu/alloc.c:300-320 | stepping by size from any block of an arena comes to its end marker |
| `PoolArena.Disjoint` | emu/alloc.c:300-320 | no two blocks overlap |
| `PoolArena.SplitTiled` | emu/alloc.c:265-271 | cutting a block in two keeps the tiling, each tail pointing at its header |
| `PoolArena.JoinTiled` | emu/alloc.c:338-353 | a block that takes over the one behind it keeps the tiling |
| `PoolArena.GrowTiled` | emu/alloc.c:300-320 | a new arena of leader, block, free rest and end marker joins the tiling |
| `PoolArena.GrownWithin` | emu/alloc.c:278-325 | the extents of all arenas with the new one, and what the system refused, still add up to the arena counter, which is at most the limit |
| `PoolState.Neighbours` | emu/alloc.c:338-347 | the block behind is found by the size, the one before by the tail; what is marked free there is a block and no leader |
| `PoolState.TakenSplit` | emu/alloc.c:256-275 | after a split the free blocks are those listed, no two are adjacent, and the live total grows by what was handed out |
| `PoolState.JoinedNext` | emu/alloc.c:338-344 | joining forward keeps all of this |
| `PoolState.JoinedPrev` | emu/alloc.c:346-353 | joining backward keeps all of this |
| `PoolState.SparedFree` | emu/alloc.c:256-275 | headers written in free blocks and in block q lie in no other live block, and back pointers written in them or at their ends neither in nor at the end of one |
| `PoolAllocator.Pool.TakeFit` | emu/alloc.c:256-275 | hands out a free block, cut down unless less than a quarter would be left; the excess is below a quarter of the demand |
| `PoolAllocator.Pool.Extend` | emu/alloc.c:278-325 | gets an arena; fails just when the limit would be passed or the system has none; the arena counter grows by the arena's extent whenever the limit allows it, whether the system has the memory or not, and is as before otherwise |
| `PoolAllocator.Pool.PoolAlloc` | emu/alloc.c:228-325 | the heap invariant holds, the pool's limit included; a best fit is taken when anything fits; the block is new, at least the rounded demand and less than a quarter above it; cursize grows by its size, and the arena counter by an arena just when nothing fits and the limit allows one; fails, changing nothing but counters, just when nothing fits and there is no room to grow; no live block is written in |
| `PoolAllocator.Pool.JoinForward` | emu/alloc.c:338-344 | takes over the free block behind |
| `PoolAllocator.Pool.JoinBackward` | emu/alloc.c:346-353 | the free block in front takes over the block |
| `PoolAllocator.Pool.PoolFree` | emu/alloc.c:327-357 | the heap invariant holds, v is live no more, no two free blocks are adjacent, cursize falls by its size, the arena counter stays, and no other live block is written in |
| `PoolAllocator.Pool.Realloc` | emu/alloc.c:424-446 | the same block, and nothing changed, while it is large enough; else a new one and the old one freed; on failure the old block stays |
| `LongMult.LMult` | crypt/longmult.c:32-59 | dst += m * src over n words, with the carry out |
| `LongMult.BuildDiag` | crypt/longmult.c:61-78 | the squares of the words, side by side |
| `LongMult.SquareInnerLoop` | crypt/longmult.c:80-112 | dst += 2 * m * src for a stretch of words, three-way carries included |
| `CoreMult.SquareSplit` | crypt/coremult.c:46-68 | a square is its diagonal, twice its cross products and the square of what is left |
| `CoreMult.BigMultN` | crypt/coremult.c:22-43 | c := a * b for n words each |
| `CoreMult.BigSquareN` | crypt/coremult.c:46-68 | c := a * a by diagonal and doubled cross products |
| `WordSums.SubNumbers` | crypt/bigmath.c:110-179 | a - b word by word, and what is off when it is done in place: a borrow of more than one word is lost, which adds B^(length of b + 1) |
| `WordSums.AbsDiff` | crypt/fastmult.c:125-150 | the distance of two stretches and which is larger |
| `Karatsuba.Karatsuba` | crypt/fastmult.c:115-195 | the outer products and the signed product of the differences, combined as told by the signs, make the whole product |
| `Karatsuba.Combine` | crypt/fastmult.c:150-195 | adds the middle in with carries of up to two, in scratch and place, and lets the carry run out at the top |
| `Karatsuba.RecursiveMultiply` | crypt/fastmult.c:115-195 | c := a * b by recursion on halves, for every length a doubled cutoff, writing c and scratch only |
| `Karatsuba.SquareHalves` | crypt/fastmult.c:198-243 | the square of the difference makes the outer squares into the square |
| `Karatsuba.RecursiveSquare` | crypt/fastmult.c:198-243 | c := a * a likewise |
| `Bignums.Bignum.Guarantee` | include/libcrypt.h:70-81 | room for n words; when it grows the words of the old room are kept, and what stands behind it is not |
| `FastMult.CleanEnds` | crypt/fastmult.c:246-282 | the leftover words of both operands complete the product of the low parts |
| `FastMult.CleanMult` | crypt/fastmult.c:246-282 | completes the product of the low n words to the product |
| `FastMult.FastMultiply` | crypt/fastmult.c:285-316 | c := a * b on magnitudes, for all lengths, restoring the length of a |
| `FastMult.FastSquare` | crypt/fastmult.c:354-381 | c := a * a on magnitudes, for all lengths |
| `FastMult.BigMultiply` | crypt/fastmult.c:384-396 | result = a * b exactly, sign and magnitude, for all operands; a word of its room stays free but for squares, and products of two numbers of one length of at least 64 words, that leave exactly the room of the product |
| `BigMult.NumTypeBigMult` | crypt/coremult.c:71-113 | c += m * a at an offset, with carry run-out and growth: exact on c as it is once it has room, where a carry kept behind the old room is replaced by what the memory holds; the sum lies in the room if and only if it is not too large for it |
| `BigMult.LBigMult` | crypt/bigmath.c:276-298 | c := a * b row by row, with the sign |
| `Bignums.BigCompare` | crypt/bigCompare.c:10-33 | the order of the magnitudes, after dropping leading zero words |
| `Bignums.BigSub` | crypt/bigmath.c:110-179 | c := a - b on magnitudes; in place it is right if and only if no borrow has to go further than one word, and else off by exactly B^(length of b + 1) |
| `Bignums.BorrowLostExample` | crypt/bigmath.c:110-179 | taking 1 from 2^64 in place loses the borrow |
| `Bignums.BigAddition` | crypt/bigmath.c:22-96 | c := a + b on magnitudes, in place too |
| `Bignums.BigAdd` | crypt/bigAdd.c:11-38 | c := a + b, signed, in place too if no borrow is lost |
| `Bignums.BigSubtract` | crypt/bigSubtract.c:11-53 | c := a - b, signed, in place too if no borrow is lost |
| `Shifts.BigLeftShift` | crypt/bigLeftShift.c:61-83 | b := a times 2^n, in place too for fewer than 32 bits |
| `Shifts.BigRightShift` | crypt/bigRightShift.c:59-69 | b := a divided by 2^n, in place too |
| `LongDivide.HalfDigit` | crypt/longBigDivide.c:67-87 | a half-word quotient: the estimate from the upper half of d, lowered until it fits, is exact |
| `LongDivide.LongBigDivide` | crypt/longBigDivide.c:21-114 | floor(big / d) for d with its top bit set and big below d * 2^32; for smaller d the quotient is shifted down once too often, so that it is right if and only if it is zero |
| `BigModDigit.EstimateDigit` | crypt/bigMod.c:84-104 | the largest digit the two leading words of the divisor allow against three of the dividend |
| `BigModDigit.DigitLeaves` | crypt/bigMod.c:84-109 | with that digit the rest lies within one divisor on both sides, whatever the low words: a single addition puts a negative rest right |
| `Modulo.TakeDigit` | crypt/bigMod.c:81-110 | one digit: the rest is congruent and at most the divisor, and equal to it just when the dividend was the divisor a word up; words above stay zero |
| `Modulo.TakeDigits` | crypt/bigMod.c:81-110 | all digits, the divisor moving down a word for each |
| `Modulo.MultipleIff` | crypt/bigMod.c:50-68 | normalization changes nothing about being the modulus shifted up by words |
| `Modulo.BigMod` | crypt/bigMod.c:20-120 | the magnitude of x is congruent to that of a modulo m and at most m, equal to m if and only if a is m shifted up by words; x has the sign of a, and m is as before |
| `Montgomery.LiftStep` | crypt/bigPow.c:28-38 | one more bit of the inverse, and the test that tells whether it is set |
| `Montgomery.ModInverse` | crypt/bigPow.c:20-41 | n with n * x congruent to -1 modulo 2^32, for odd x |
| `Montgomery.ClearWords` | crypt/bigPow.c:92-99 | all words made zero, from the lowest up, by adding a multiple of the modulus below R times it; the number that came of is the original one, or, where a carry was lost as the room grew, that with what the memory held in its place |
| `Montgomery.Redc` | crypt/bigPow.c:80-109 | for odd N of n words, T <= N * N and a room of s words: t <= N and t * R congruent to T modulo N, if and only if no carry leaves the room before it grows (Leaves), or the memory happens to hold it; afterwards there is room for every reduction by N |
| `Montgomery.LeavesIff` | crypt/bigPow.c:94-99 | the sum leaves the room just when the one multiple of N that clears the low s - n - 1 words takes it there: what can be told from T, N and s |
| `Montgomery.OneWay` | crypt/bigPow.c:94-99 | just one multiple of N, below a power of the word size times it, clears that many low words |
| `Montgomery.TopNotFull` | crypt/bigPow.c:80-109 | no carry is lost while T is below the top of its room by one word's worth; so a word to spare is enough |
| `Montgomery.TopWordNotFull` | crypt/bigPow.c:80-109 | nor in a room of twice the words of N, when the top word of N is not all ones |
| `Montgomery.CarryLost` | crypt/bigPow.c:94-99 | N = 2^64 - 1 and T the square of N - 1, in the four words it takes: the carry leaves the room, and the reduction is right only where the memory holds 1 there |
| `ModularPower.RadixInverts` | crypt/bigPow.c:80-109 | R has an inverse modulo every odd N, so that numbers in residue form stand for one number each |
| `ModularPower.MontMultiply` | crypt/bigPow.c:127-128 | a product, reduced, stands for the product of what its factors stand for, when the result has room for every reduction, or factors are two numbers and the modulus is below 64 words, or the product does not spill; afterwards the result has that room |
| `ModularPower.SquareStays` | crypt/bigPow.c:222-233 | the square of a residue as long as the modulus, or at most half as long, does not spill if the top word of the modulus is not all ones |
| `ModularPower.ShortSecure` | crypt/bigPow.c:188-245 | no power modulo two or three words loses a carry unless the top word of the modulus is all ones |
| `ModularPower.SecondNibbleSpills` | crypt/bigPow.c:222-223 | for N = 2^64 - 1, the base N - 1 and the exponent 0x12 the first squaring does |
| `ModularPower.ResForm` | crypt/bigPow.c:55-74 | a new number that stands for a |
| `ModularPower.BuildAddChainTable` | crypt/bigPow.c:111-132 | entry i stands for a^i, but entry 0, which is the plain number 1 and never used; for moduli below 64 words always, for longer ones if no product spills |
| `ModularPower.NibbleOfNumber` | crypt/bigPow.c:185-186 | the nibble read from the words is the digit of the exponent to the base sixteen |
| `ModularPower.FourSquarings` | crypt/bigPow.c:225-237 | d stands for the sixteenth power of what result stands for; only the first squaring can lose a carry, and only before d has its room |
| `ModularPower.PowerLoop` | crypt/bigPow.c:207-239 | the nibble loop, from the top nibble down to 0: result stands for a^exp, if no carry is lost in the first product and the first squaring |
| `ModularPower.BigPowMontgomery` | crypt/bigPow.c:188-245 | for an odd modulus of at least two words, if no carry is lost (Secure): result congruent to a^exp and at most N, with the special cases 0 and exponent 0 as the code has them |
| `ModularPower.LeastRemainder` | crypt/bigPow.c:188-245 | what is congruent and at most N is the least remainder, unless the power is 0 modulo N: then it is 0 or N |
| `ModularPower.BigPow` | crypt/bigPow.c:335-368 | the same for every base, reduced first if larger than the modulus; a base that is a multiple of the modulus to the power 0 gives 0, or 1 when the reduction left the modulus itself |
| `ModularPower.SecureCong` | crypt/bigPow.c:335-368 | whether a carry can be lost depends on the residue of the base only |
| `Brickell.G16BigPow` | crypt/brickell_bigpow.c:13-57 | entry i stands for a^(16^i), if neither of the first two squarings loses a carry or there is one entry only |
| `Brickell.TriangleIsExponent` | crypt/brickell_bigpow.c:111-124 | the nested products from 15 down to 1 count every nibble as often as it says: the exponents add up to exp for every exp < 16^L |
| `Brickell.BuildCoeffTable` | crypt/brickell_bigpow.c:59-98 | entry j stands for the product of the table entries where exp has nibble j; for moduli below 64 words always, for longer ones if the products of an entry and 1 lose no carry |
| `Brickell.BrickellBigPow` | crypt/brickell_bigpow.c:100-131 | result congruent to a^exp and at most N, for every exponent stored padded to L nibbles, given a sound table; for moduli of 64 words and more if no first product loses a carry |
| `Brickell.PowersAgree` | crypt/brickell_bigpow.c:100-131 | both ways to the power agree, but where it is 0 modulo N and each is 0 or N |
| `Dss.OrderPowers` | crypt/DSS.c:44-64 | powers of a base of order q depend on the exponent modulo q only |
| `Dss.ExponentsMeet` | crypt/DSS.c:97-122 | the verifier's exponents and the secret add up to the nonce modulo q |
| `Dss.SignedIsAccepted` | crypt/DSS.c:23-142 | for g^q = 1 modulo p, y = g^x and right inverses of k and s modulo q, every signature is accepted, also where a remainder is left as the modulus itself |
| `Dss.DssSign` | crypt/DSS.c:23-73 | r is the power the exponentiation gives, reduced by q, and s what the second equation of the signature makes of it, under any key; r is the first half the standard asks for when the key is good and no carry is lost in the power; keys are as before |
| `Dss.DssVerify` | crypt/DSS.c:76-142 | true just when r is the product of both powers the exponentiation gives, reduced by p and by q, under any key; just when r is what the verification equation recovers, when the key is good and no carry is lost in the powers |
| `Dss.SignaturesVerify` | crypt/DSS.c:23-142 | what signing returns, verification recovers, for every digest, nonce and good key |
| `Baton.StepKeeps` | emu/dis.c:451-565 | every stretch under the lock, every meeting, every sleep and wake keeps the invariant |
| `Baton.RunsKeep` | emu/dis.c:451-565 | so the invariant holds after each step of every run, whatever the interleaving |
| `Baton.OneBaton` | emu/dis.c:451-565 | exactly one of: the machine is idle and nobody queues, one process holds the baton (awake or asleep), one hand-off is under way |
| `Baton.NoLostWakeup` | emu/dis.c:28-33 | the holder never sleeps with an acquirer queued unless that wakeup is still to come, and it can come and does wake the holder |
| `Baton.HandOffEnds` | emu/dis.c:490-538 | the taker of a hand-off is there, or will be after its wakeup: the meeting takes place |
| `Baton.AcquirersAreNext` | emu/dis.c:514-538 | while an acquirer is queued a running machine yields instead of sleeping, and whoever leaves or yields gives to an acquirer before any waiting machine |
| `Baton.WantedIsOwed` | emu/dis.c:446-538 | the baton is wanted once for each process that acquire queued and once less for each yield, and never less than not at all |
| `Baton.WantsEnd` | emu/dis.c:514-574 | once no acquirer is queued, as many yields as the baton is wanted, each with its meeting if a machine waits, let a holder with nothing to run sleep |
| `Baton.Isched.AcquireQueue` | emu/dis.c:451-474 | takes the baton when idle, else queues in front, and tells whether the holder has to be woken |
| `Baton.Isched.WakeHolder` | emu/proc.c:33-46 | wakes the holder if it sleeps; nobody sleeps afterwards |
| `Baton.Isched.ReleaseBaton` | emu/dis.c:490-511 | makes the machine idle when nobody waits, else gives to the first of the queue |
| `Baton.Isched.IYield` | emu/dis.c:514-538 | gives to the first of the queue and waits behind the last; one want less |
| `Baton.Isched.StartUp` | emu/dis.c:540-565 | runs at once when idle, else waits behind the last |
| `Baton.Isched.SleepIdle` | emu/dis.c:677-684 | sleeps just when there is nothing to run and nobody wants the baton |
| `Mux.StepKeeps` | emu/devmnt.c:604-852 | every step of a caller keeps the invariant, flushes included |
| `Mux.RunsKeep` | emu/devmnt.c:604-852 | so it holds after each step of every run, whatever the interleaving and the order of replies |
| `Mux.OneAtATime` | emu/devmnt.c:636-664 | at most one caller is through the gate |
| `Mux.AnsweredRight` | emu/devmnt.c:760-788 | an answered call has a reply with the tag of its request or of a flush it sent, whole and in a buffer that is its alone; if it sleeps, the reader is about to wake it |
| `Mux.DeliveredRight` | emu/devmnt.c:760-788 | a queued call is completed just when the tag of its request, or of its last flush if it sent one, is that of the reply and no call before it in the queue has that tag in either place; it then has just that reply, in its own buffer, and leaves the queue; no other call but the reader's changes |
| `Mux.FlushIsAnswered` | emu/devmnt.c:760-830 | over every run: a call that was flushed and is still queued is completed by the reply to its last flush, unless one before it in the queue has that tag |
| `Mux.GateIsTaken` | emu/devmnt.c:738-758 | while the gate is open and an unanswered caller sleeps, at most three steps of callers that are awake and calling already take the gate, without a new call and without an interrupt: never are all asleep |
| `Mux.Mnt.Begin` | emu/devmnt.c:604-620 | queues a call in front |
| `Mux.Mnt.TakeGate` | emu/devmnt.c:636-658 | takes the gate just when it is open |
| `Mux.Mnt.MountMux` | emu/devmnt.c:760-788 | the search of the queue and the swap of buffers do what the step says |
| `Mux.Mnt.MntGate` | emu/devmnt.c:738-758 | opens the gate; the first sleeper of the queue is who is to be woken |
| `StyxMessage.WireIsMessage` | emu/styx.c:236-370 | what is sent reads as the message it was made from, exactly when the count fits its two bytes |
| `StyxMessage.MessageOnce` | man/html/mpgs113.htm:117-143 | no message is the beginning of another: two at the front of the same bytes are the same bytes and say the same in every field |
| `StyxMessage.MessageLen` | man/html/mpgs113.htm:117-143 | a message is its head, of a length the type fixes, and the data its count tells |
| `StyxCodec.TableLengths` | emu/styx.c:42-72 | the table holds the head lengths, but 0 for both attach messages, whose lengths stand two places too early |
| `StyxBytes.KnownTypes` | emu/styx.c:42-232 | below 26 the types there are, are those the table has a length for; of the rest only both attach messages |
| `StyxBytes.MessageStands` | emu/styx.c:114-232 | for every type, bytes are a whole message that says a record if and only if every field stands at its place, told as a number for each type and field, low byte first, and the count fits and is that of the data |
| `StyxBytes.WireStands` | emu/styx.c:236-370 | what is sent has every field at that place, whatever the count; the high half of an offset is 0, and the pad byte is left as it was |
| `StyxBytes.AgreeFields` | include/styx.h:5-28 | what it means that two records of a type say the same, field by field |
| `StyxCodec.ConvS2M` | emu/styx.c:235-370 | writes exactly the message and returns its length, or, for an unknown type, its type and tag and returns -1; bytes behind it and the pad byte stay |
| `StyxCodec.ConvM2S` | emu/styx.c:114-232 | returns what is there to be taken, and the record filled says exactly the bytes taken |
| `StyxCodec.WholeIsFound` | emu/styx.c:114-232 | a message that is there whole is found, whatever follows |
| `StyxCodec.BegunIsRefused` | emu/styx.c:114-232 | of any proper prefix nothing is taken, whatever lies behind it in the buffer; but of an attach message, from the third byte on, the whole length is taken though it is not there |
| `StyxStream.MntRpcRead` | emu/devmnt.c:666-736 | the next message off the stream, or the end, or a failure, exactly as the stream and its cuts say; nothing is lost or read twice, and the reading then stands where it had to come to for that message; after a failure nothing is kept |
| `StyxStream.ExportRead` | emu/exportfs.c:155-202 | the same for the server's loop; after a failure what was kept stays counted |
| `StyxStream.FrontIsDelivered` | emu/devmnt.c:666-736 | a message at the front of the stream is delivered and leaves the rest, however the bytes arrive; the one exception is an attach message, which fails if and only if some read ends inside its head behind the second byte |
| `StyxStream.Receive` | emu/devmnt.c:666-736 | any cutting of the bytes of a list of messages into reads delivers them in order, all up to the first attach message whose head is split when its turn comes, which the cutting tells; if there is none all are, and what came behind is left |
| `StyxStream.SentIsReceived` | emu/styx.c:114-370 | a record goes through encoder, stream and decoder unchanged, unless it is an attach message that is split |
| `HashBlock.TableOrder` | crypt/md5.c:64-137 | the table takes the words, and rotates, in the order of section 3.4 of RFC 1321 |
| `HashBlock.Md5Mix` | crypt/md5.c:142-189 | the loop that moves the registers on does what the standard's turns of fixed registers do, for every block |
| `HashBlock.ShaMix` | crypt/sha.c:7-86 | four loops over the expanded schedule do what the recursive schedule and rounds of FIPS 180-1 say |
| `HashVectors.Md5OfAbc` | crypt/md5.c:64-189 | the MD5 digest of "abc", byte by byte, is the one RFC 1321 (appendix A.5) gives: so are table, mixtures, seed and orders of bytes |
| `HashVectors.ShaOfAbc` | crypt/sha.c:7-186 | the SHA digest of "abc", byte by byte, is the one FIPS 180-1 (appendix A) gives: so are schedule, rounds, seed and orders of bytes |
| `HashVectors.ConstantIsRoot` | crypt/sha.c:25-80 | the constants of the four stretches are the roots of 2, 3, 5 and 10 times 2^30, rounded down |
| `Digest.BlocksAppend` | crypt/md5.c:150-188 | hashing block after block is hashing the whole |
| `Digest.PaddedBytes` | crypt/sha.c:146-180 | the padded message byte by byte, for any message: 0x80, zeros as far as the first block with room, and the count of bits in eight bytes, lowest first for MD5 and last for SHA |
| `Digest.CountRight` | crypt/md5.c:262-277 | the padding is the standard's if and only if the length, as far as the standard's 64 bits tell it, is below 2^32 |
| `Digest.CountWraps` | crypt/md5.c:262-277 | a message of 2^32 bytes is padded with the count of an empty one |
| `Digest.DigestState.Update` | crypt/md5.c:196-289 | without digest the state then holds the longer message; with it the digest is that of all bytes ever taken, padded |
| `Digest.DigestState.Finish` | crypt/sha.c:146-180 | pads with the bit, zeros and the count of bits in the algorithm's order, and digests the rest |
| `Digest.InPieces` | crypt/sha.c:94-186 | however a message is cut into calls, the digest is that of the whole; below 2^32 bytes it is the standard's |

## Left out

- Tinyfs.Tfs.Read: the finger hint into a file is not modelled; reads and appends start from the first block.
- Tinyfs.Tfs.Write: requires that the length in the table is that of the file, which it is for every file but a new one in an entry left over with a length.
- Tinyfs.Tfs.Remove: requires that the file is not open elsewhere, because the reference counts of the file system are not modelled.
- Tinyfs.Tfs.constructor: media of fewer than 3 or more than 65535 blocks, names of 28 bytes without a terminator, and errors of the device are not modelled; a block write is atomic.
- PoolAllocator.Pool.PoolAlloc: negative sizes, the wrap-around of 32-bit counters and the chain of arena leaders kept for debugging are not modelled.
- PoolAllocator.Pool.Realloc: user bytes are not modelled; that no header and no back pointer is written inside a live block stands for their safety.
- Karatsuba.RecursiveMultiply: unrolled loops are plain word loops.
- LongDivide.LongBigDivide: local temporaries are numbers instead of word arrays.
- Modulo.BigMod: requires a modulus of at least two words, because the source reads the word below the top one.
- Montgomery.Redc: nothing is said where a carry leaves a room shorter than twice the modulus and the memory holds all ones behind it, as a second carry could then be lost.
- ModularPower.BigPow: even moduli are left out, because the reduction by a power of two raises a length without clearing words. That no carry is lost is proved to be enough; that it is needed holds for the reduction (`Redc`), not for the power, which can come out right from a wrong step, or have more room at first than the condition counts on.
- Brickell.BrickellBigPow: likewise one way; and for moduli of 64 words or more the condition is asked of every table entry, not only of the one multiplied first.
- Dss.DssSign: the inverses and the nonce are given, because the extended Euclid of the source is not part of this model.
- Baton.StepKeeps: interrupting the sleeping holder is not modelled; a new machine started by the last release is any process that has not yet started.
- Mux.StepKeeps: a failed flush write, hang-up and closing a connection are not modelled; tags are what the calls have, and that they are distinct is a hypothesis where it matters.
- Mux.Mnt.MountMux: swapping the buffers after the lock is let go is one step with the search before it; the call is off the queue by then, and marked done last.
- HashBlock.ShaMix: the reference groups its sums of words as the source does.
- StyxCodec.ConvM2S: the data of a message is copied out of the buffer instead of pointed at; a record of which the decoder takes nothing is left with some fields changed, and what they are is not stated.
- StyxStream.MntRpcRead: an empty read with more bytes behind it, which the source passes over once, does not occur in the model's streams; the wait for a flush when a read fails is not modelled.
- StyxStream.ExportRead: the queue of requests, the slave processes and flushes behind the reading loop are not modelled.
- Digest.DigestState.Update: both algorithms share one text, told apart by a parameter, because the source's two files differ in the block function, the seed and the order of bytes only; allocating and freeing the state is not modelled.
- HashBlock.Md5Mix: that the constants of the 64 steps are sines is not stated for each; the digest of one message ties them to the standard's (`Md5OfAbc`).
- Bignum division with quotient, inverses, primes, RSA, ElGamal, random sources, DES and RC4 are not modelled.
- Conversion of directory entries, printing of messages, channels, name spaces, the interpreter's instructions, garbage collection, devices and user interface are not modelled.
