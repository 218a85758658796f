# stress-ng core algorithms, modelled and verified in Dafny

stress-ng is mostly system-call plumbing, but its `core-*` files hold algorithms of their own: a
lock pool shared by processes, allocators over shared bitmaps, a random generator, hashes, a hash
table, searches and a process supervisor. This project models those algorithms and proves what
they are for. `dafny verify dfyconfig.toml` verifies everything.

| file | models |
|---|---|
| `LockPool.dfy`, `LockCalls.dfy`, `LockTable.dfy` | the shared lock table of `core-lock.c` with its atomic spinlock: any number of processes interleave, one shared access a step; the second file says what whole calls do, the third runs the steps on the array itself |
| `Ports.dfy`, `Checksum.dfy` | first-fit port reservation and the IPv4 checksum of `core-net.c` |
| `MultiplyWithCarry.dfy`, `Mwc.dfy`, `Generator.dfy`, `RandomBytes.dfy`, `Reduction.dfy` | the generator of `core-mwc.c`: its two registers, its bit, byte and half-word caches, its string and buffer fillers, and the range reduction of `core-mwc.h` |
| `Crc32c.dfy`, `Coffin.dfy`, `HashTable.dfy`, `CStrings.dfy` | table-driven CRC32C, the word-at-a-time Coffin hashes and the chained string table of `core-hash.c` |
| `Numa.dfy` | node search and page distribution of `core-numa.c` |
| `Primes.dfy` | primality check and stride-prime search of `core-prime.c` |
| `Supervisor.dfy` | the restarting, signal-escalating loop of `core-out-of-memory.c` |
| `Submasks.dfy` | `stress_flag_permutation` of `core-helper.c` |
| `MemoryPattern.dfy` | the memory patterns of `core-mmap.c` |
| `Base36.dfy`, `PipeSize.dfy` | file-name encoding and pipe-size search of `core-filesystem.c` |
| `Arithmetic.dfy`, `Bits.dfy` | word sizes and shared facts about quotients, powers of two and bits |

Machine words are natural numbers with the reduction modulo 2^k written out, or bit vectors where
the code is all shifts and exclusive ors. What the kernel, the clock, the allocator or the continue
flag answers is a parameter: a Boolean, a function from attempt number to answer, or a sequence of
events.

The lock pool assumes a discipline of its callers: a handle is used while it is live, only the
holder of a lock releases it, and a handle is destroyed by its owner while nobody holds or uses it.

## What the proofs found

- `stress_numa_randomize_pages` binds each run of chunks to the node drawn for the *next* run
  (core-numa.c:356 sets the bit of `node`, not of `prev_node`). `Numa.BoundToOwnDrawIff` says exactly
  which chunks get the node drawn for them: those of the last run. `Numa.ChunkOnTheWrongNode` is an
  input with two chunks. When the first two draws differ
  the first call has size 0 (`Numa.EachCallOneNode`).
- In `stress_oomable_child`, `signal_idx` is the index of the next signal and is kept across
  restarts. So a child killed by the OOM killer is not restarted once five signals were sent to it or
  to earlier children: `Supervisor.CountedAsOomIff`, with the run `Supervisor.OomKillMissed`.
- `stress_net_ipv4_checksum` is right for every input of a size if and only if the size is at most
  131074 bytes (`Checksum.CorrectIff`).
- The reductions return 0..max-1, and 0 for max = 0; their comments say 1..max inclusive
  (`Reduction.ExactRange`).
- "Return a prime > n" holds of a prime that is found exactly for n < 2^60 because of the mask at
  core-prime.c:87 (`Primes.FoundExceedsIff`); at n = 2^60 the result is 1013
  (`Primes.NotAlwaysAbove`). For n = 0 the search always gives up (`Primes.ZeroGivesUp`).
- When `stress_prime64_next_get` gives up it returns 1009 even if 1009 divides n, and then the stride
  of stress-dentry.c:134 misses slots (`Primes.NextStridesIff`). It always gives up when the continue
  flag is already down, as in the clean-up at stress-dentry.c:471 (`Primes.StoppedStridesIff`,
  `Primes.StrideCanMissSlots`).
- A timed-out acquire leaves the caller holding the lock when the caller held it already: nothing
  forbids acquiring a lock twice (`LockPool.GiveUpNotHoldingIff`, `LockCalls.ReacquireStillHolds`).
- The light memory pattern, checked against its own first word, misses a change to that word when
  there is just one page (`MemoryPattern.OneChangeCaughtIff`).
- For a size that ends inside a page, `stress_mmap_set` writes up to 15 words past it and
  `stress_mmap_check` reads to the end of the page, and the check still passes over fresh memory
  (`MemoryPattern.CheckAfterSet`).
- A pipe size found by binary chop is returned from inside the loop and never cached, so every later
  call searches again (`PipeSize.PipeLimit.Get`).
- `stress_flag_permutation` yields all submasks if and only if at most 20 flags are set
  (`Submasks.AllSubmasksIff`); beyond that, the submasks of the lowest 20.
- 0 is encoded in base 36 as the empty name (`Base36.FitsThirteen`).

## Model

| member | source | states |
|---|---|---|
| LockPool.MappedInv | core-lock.c:749-767 | the freshly mapped table satisfies the invariant of the pool |
| LockPool.StepKeepsInv | core-lock.c:609-743 | every step of any process, timeouts included, keeps the invariant: slots in use are slot 0 and the claimed ones, each claimed once; a flag is set exactly when one process holds the lock; one process at most is inside the big lock |
| LockPool.RunKeepsInv | core-lock.c:609-743 | so does every legal interleaving, of any length and any number of processes |
| LockPool.MutualExclusion | core-lock.c:245-272 | after any run a lock has at most one holder, and its flag is set if and only if it has one |
| LockPool.BigLockExclusion | core-lock.c:697-743 | the same for the big lock and its critical sections |
| LockPool.HandlesAreDistinct | core-lock.c:609-743 | after any run live handles are distinct slots in 1..16383, and a slot is in use exactly when some process claims it: none is lost |
| LockPool.CreateOutcome | core-lock.c:697-719 | a created handle is owned, held and used by nobody else and is free; a null result without a timeout means that every slot is claimed |
| LockPool.MagicChangesUnderBigLock | core-lock.c:708-738 | a slot's magic changes only while the changing process is alone in the critical section of the big lock, and never for slot 0 |
| LockPool.GiveUpGrantsNothing | core-lock.c:245-262 | timing out writes nothing, grants no lock and takes none away, and leaves the handle of a failed destroy with its owner |
| LockPool.GiveUpNotHoldingIff | core-lock.c:245-262 | after a timed-out acquire the caller does not hold the lock if and only if it did not hold it before, which is exactly when another process holds it |
| LockCalls.CreateAlone | core-lock.c:609-630 | run by itself with the big lock clear, a create returns the first free slot, marked, clear and owned by the caller, and changes nothing else |
| LockCalls.AcquireAlone | core-lock.c:652-660 | an acquire of a clear lock sets its flag and holds it after two steps, and changes nothing else |
| LockCalls.ReleaseAlone | core-lock.c:682-691 | a release clears the flag in two steps: the caller holds the lock no more, and nothing else has changed |
| LockCalls.DestroyAlone | core-lock.c:636-646 | with the big lock clear a destroy frees the slot, magic and flag, in five steps, and the handle is owned no more |
| LockCalls.FinishedAcquireHolds | core-lock.c:245-265 | however others interleave, an acquire that returns without timing out holds the lock, and the flag is set |
| LockCalls.ReleaseInTwoSteps | core-lock.c:682-691 | however others interleave, a release is over after two steps of its caller, which then holds the lock no more; at some moment on the way the flag was clear |
| LockCalls.FinishedDestroyFrees | core-lock.c:725-743 | a destroy that returns without timing out had freed the slot, inside the big lock |
| LockCalls.FinishedCreateOwns | core-lock.c:697-719 | a create that returns without timing out has one new handle, or had found every slot in use |
| LockCalls.ReacquireStillHolds | core-lock.c:652-660 | a holder that acquires its own lock again spins, times out and still holds it: that run is legal from every state in which it holds the lock and is in no call |
| LockCalls.SomeRunHolds | core-lock.c:609-660 | the discipline can be met: create, then acquire, is a legal run from the mapped table that ends with slot 1 held |
| LockPool.HolderProgress | core-lock.c:697-743 | the holder of the big lock is never blocked, and each of its steps brings the release nearer |
| LockPool.BigLockIsFreed | core-lock.c:697-743 | however the other processes interleave, a legal run with as many steps of the holder as it has left, at most 16386, contains its release of the big lock |
| LockTable.Table.constructor | core-lock.c:749-767 | mapping zeroed pages and setting up slot 0 gives the initial state |
| LockTable.Table.TestAndSet | core-lock.c:172-175 | the atomic instruction sets one flag and returns its old value |
| LockTable.Table.Proceed | core-lock.c:609-743 | one shared access made on the table in place is the step of the model |
| LockTable.Table.Enter | core-lock.c:609-692 | entering a library call is the step of the model |
| LockTable.Table.GiveUp | core-lock.c:252-255 | backing out after the time limit is the step of the model |
| LockTable.Table.Run | core-lock.c:609-743 | any legal interleaving run on the shared table ends in the state of the model, with the invariant |
| Ports.FirstFitIsLeast | core-net.c:420-434 | the result is the least base at or after the start whose whole block is clear in both bitmaps, and -1 exactly when there is none |
| Ports.FirstFitOnBitmaps | core-net.c:394-443 | on the two bitmaps: the ports found are neither allocated nor bound, and every earlier block, or every block when nothing is found, has a port that is allocated or bound |
| Ports.AttemptsAre | core-net.c:404-412 | the lock is taken once for every 17 ports passed over, and once at the start |
| Ports.ReserveKeepsInv | core-net.c:375-460 | a reservation keeps outstanding blocks disjoint and the bitmap their union |
| Ports.ReleaseKeepsInv | core-net.c:466-474 | so does the release of an outstanding block |
| Ports.ReservationsAreDisjoint | core-net.c:375-474 | over every run of calls outstanding reservations are disjoint and the bitmap is exactly their union |
| Ports.ReleaseUndoesReserve | core-net.c:375-474 | releasing what was just reserved restores the bitmap |
| Ports.PortMap.constructor | stress-ng.c:3012-3022 | the shared map starts with no port allocated |
| Ports.PortMap.ReservePorts | core-net.c:375-460 | the ports returned lie at or after the start and below 65536, were neither allocated nor bound, and no earlier block was so; just they are marked. -1 with nothing marked for a bad range, for a failed attempt to take the lock, and when every block has a port allocated or bound |
| Ports.PortMap.ReserveOne | core-net.c:394-414 | the same for the single-port path |
| Ports.PortMap.FindBlock | core-net.c:416-443 | counting consecutive clear ports finds the first fit if every attempt to take the lock up to it succeeds, and gives -1 otherwise |
| Ports.PortMap.ReleasePorts | core-net.c:466-474 | clears the bits of a valid range and no others |
| Ports.PortMap.RunCalls | core-net.c:375-474 | any run of reservations and releases on the map ends in the state of the model, a reservation failing there exactly when one of its lock attempts fails or nothing fits |
| Checksum.OnesSumIs | core-net.c:480-499 | the end-around-carry sum of RFC 1071 is the representative in 1..65535 of the plain sum modulo 65535, or 0 for zero data |
| Checksum.SumIsByteSum | core-net.c:489-495 | the sum counts bytes at even places once and bytes at odd places 256 times, the last odd byte included |
| Checksum.CorrectUpToLimit | core-net.c:480-499 | up to 131074 bytes the accumulator cannot overflow, two folds suffice and the result is the Internet checksum of section 1 of RFC 1071 |
| Checksum.CorrectIff | core-net.c:480-499 | for every larger size some input gets a wrong checksum |
| Checksum.StoredChecksumVerifies | core-net.c:480-499 | a checksum stored in its zeroed aligned word makes the data check to 0 |
| Checksum.Ipv4Checksum | core-net.c:480-499 | the loop and folds compute the 32-bit sum folded twice; 0 for a null pointer |
| MultiplyWithCarry.NoOverflow | core-mwc.c:228-229 | the 32-bit product and sum never overflow |
| MultiplyWithCarry.InRangeAfterTwo | core-mwc.c:228-229 | any seed is inside 0..a*2^16-1 after two steps |
| MultiplyWithCarry.StepKeepsRange | core-mwc.c:228-229 | and a register stays there |
| MultiplyWithCarry.Congruence | core-mwc.c:228-229 | 2^(16n) * x_n and x_0 agree modulo a*2^16 - 1, for every n |
| MultiplyWithCarry.StepIsBijection | core-mwc.c:228-229 | the step is a bijection of 0..a*2^16-1 with an explicit inverse |
| MultiplyWithCarry.FixedPoints | core-mwc.c:228-229 | each of the two registers has exactly two fixed points, 0 and a*2^16-1 |
| MultiplyWithCarry.StuckIff | core-mwc.c:228-229 | a register ever reaches a fixed point if and only if its seed is a multiple of the modulus, and then within two steps |
| MultiplyWithCarry.DefaultSeedsNeverStuck | core-mwc.c:36-38 | the default seeds never do |
| Mwc.EveryCallEmitsNextPiece | core-mwc.c:255-297 | after any seeding and any interleaving of calls, a call returns the next piece, low end first, of the word its kind is on |
| Mwc.DrawsAreNeeded | core-mwc.c:226-297 | the words drawn are exactly those the four counts of calls need: none early, twice or in vain |
| Mwc.CombineHalves | core-mwc.c:231 | the low half of a word is that of w, the high half is z with the high half of w added |
| Mwc.FirstWords | core-mwc.c:36-38 | the first two words from the default seeds are 820856226 and 2331188998 |
| Generator.Generator.constructor | core-mwc.c:52-61 | the initial state is the default seed with empty caches |
| Generator.Generator.Flush | core-mwc.c:67-75 | empties the caches and keeps the registers |
| Generator.Generator.SeedSet | core-mwc.c:193-198 | seeds the registers and empties the caches |
| Generator.Generator.Mwc32 | core-mwc.c:226-232 | steps both registers, leaves the caches, and returns the low half of w under the sum of z and the high half of w |
| Generator.Generator.Mwc16 | core-mwc.c:255-265 | the half-word call moves the state and returns what the model says |
| Generator.Generator.Mwc8 | core-mwc.c:271-281 | the same for bytes |
| Generator.Generator.Mwc1 | core-mwc.c:287-297 | the same for bits |
| Generator.Generator.Mwc8Modn | core-mwc.h:60-63 | a byte reduced below max; 0 for max = 0 by Reduction.ReduceInRange |
| Generator.Generator.Mwc16Modn | core-mwc.h:70-73 | a half word reduced below max |
| Generator.Generator.Mwc32Modn | core-mwc.h:80-83 | a word reduced below max |
| Generator.SentinelCountsFive | core-mwc.c:494-507 | the register shows the sentinel after exactly the fifth character, and the sentinel never shows in a character |
| Generator.CharactersAt | core-mwc.c:496-507 | character i is the (i mod 5)-th six bits of word i / 5, and is in the alphabet |
| Generator.LetterIndex | core-mwc.c:473-482 | each six-bit value has its own character, the one base64url gives it |
| Generator.Generator.PutCharacters | core-mwc.c:496-507 | the loop writes those characters and draws a word after every fifth |
| Generator.Generator.RndStr | core-mwc.c:466-509 | writes len - 1 characters and a NUL and nothing else, drawing 1 + (len - 1) / 5 words; an empty buffer is left alone |
| Generator.SwappedBigIsLittle | core-bitops.h:97-107 | a byte-swapped word stored by a big-endian host is the word stored by a little-endian one |
| Generator.LittleIsLowFirst | core-mwc.c:534-535 | the word stored little-endian has its low byte at the lowest address |
| Generator.FillParts | core-mwc.c:525-544 | the three loops cover the buffer: lead bytes to the word boundary, whole words, tail bytes |
| Generator.Generator.FillLead | core-mwc.c:525-527 | fills bytes up to the word boundary or the end |
| Generator.Generator.FillWords | core-mwc.c:532-539 | fills whole words with the same bytes on hosts of either byte order |
| Generator.Generator.FillTail | core-mwc.c:541-544 | fills the bytes after the last boundary |
| Generator.Generator.Uint8Rnd4 | core-mwc.c:515-545 | writes exactly len bytes, which depend on the alignment but not on the host's byte order |
| RandomBytes.FillIsPieces | core-mwc.c:515-545 | after a seeding a fill writes the first bytes of word 0 up to the word boundary, then the next words whole, then the rest of word 0, and one more word's bytes when that is used up or was not begun |
| RandomBytes.LeadIs | core-mwc.c:526-527 | the first bytes end at the first word boundary or with the buffer |
| Reduction.ReduceInRange | core-mwc.h:60-102 | no bit is lost, and the result is below max |
| Reduction.PreimagesAreInterval | core-mwc.h:60-102 | the words that reduce to v form an interval |
| Reduction.AsUnbiasedAsPossible | core-mwc.h:60-102 | each value below max has floor(2^k / max) or ceil(2^k / max) preimages |
| Reduction.ExactRange | core-mwc.h:60-102 | the reachable results are exactly 0..max-1 |
| Crc32c.TableIsShifts | core-hash.c:201-285 | each of the 256 printed entries is eight bit steps of its index |
| Crc32c.ShiftsLinear | core-hash.c:201-218 | the bit step is linear over exclusive or |
| Crc32c.TableStep | core-hash.c:297-298 | one table step is one byte through the bit-at-a-time register |
| Crc32c.HashCrc32c | core-hash.c:290-301 | the table-driven loop computes the bit-at-a-time reflected CRC32C of section 12.1 of RFC 3720 on every string |
| Crc32c.CheckValue | core-hash.c:290-301 | the CRC of 123456789 is 0xe3069283, and that of the empty string is 0 |
| Crc32c.MeetBackward | core-hash.c:290-301 | registers that meet after n <= 4 bytes differed in their low n bytes only |
| Crc32c.RegisterInjective | core-hash.c:290-301 | different registers stay different through equal bytes |
| Crc32c.DetectsBurst | core-hash.c:290-301 | strings that differ only inside four consecutive bytes never share a CRC |
| Coffin.HashCoffin | core-hash.c:380-389 | the byte-at-a-time loop hashes the text of the string |
| Coffin.HashCoffin32Le | core-hash.c:395-426 | the prefetching little-endian form gives the byte-at-a-time hash of the first len bytes whatever lies after them, touching memory no further than the last loaded word |
| Coffin.HashCoffin32Be | core-hash.c:432-462 | so does the big-endian form |
| Coffin.HashBit | core-hash.c:384-387 | bit (i + 5) mod 32 of the hash with one more byte is the exclusive or of bit i of the hash and bit i of the byte; the hash of nothing is 0x55555555 |
| Coffin.OneByteMatters | core-hash.c:380-389 | strings that differ in exactly one byte never share a hash |
| HashTable.HashSdbm | core-hash.c:111-120 | the loop computes the sdbm recurrence modulo 2^32, for signed and unsigned char |
| HashTable.SdbmIsPolynomial | core-hash.c:117-118 | the hash is the sum of the chars, each weighted by 65599 to the number of chars after it, modulo 2^32 |
| HashTable.WidenedIs | core-hash.c:114-117 | a char counts as its eight bits, read signed or unsigned as the host does |
| HashTable.StoredInItsBucket | core-hash.c:744-745 | wherever a string is stored, the bucket is that sum modulo 2^32, modulo the number of buckets |
| HashTable.InsertIs | core-hash.c:754-781 | adding puts one string in, keeps the others, keeps each string once and in its own bucket; a failed allocation changes nothing |
| HashTable.TableIsSet | core-hash.c:695-781 | over every run of adds the table is the set of the strings successfully added, each once, in bucket sdbm mod n |
| HashTable.Create | core-hash.c:695-713 | an empty table, or null for no buckets or a failed allocation |
| HashTable.OneEntryPerText | core-hash.c:754-781 | two entries linked in the table with equal strings are one entry |
| HashTable.Table.SameEntry | core-hash.c:754-781 | so are two entries that adds returned, however many adds lie between |
| HashTable.Table.Find | core-hash.c:718-726 | walking a chain finds the entry of a string exactly when the bucket has it |
| HashTable.Table.Get | core-hash.c:733-746 | found if and only if the table has the string, and then it is the entry first linked for it |
| HashTable.Table.Link | core-hash.c:772-778 | a new entry at the head of its chain; no earlier entry moves |
| HashTable.Table.Add | core-hash.c:754-781 | adds to the set; re-adding returns the same entry as before; null only when allocation fails; earlier entries and their links survive |
| HashTable.Table.AddAll | core-hash.c:754-781 | over any run of adds the heap table is the table of the model, and two adds that return entries return the same one if and only if their strings are equal |
| HashTable.ConcatDistinct | core-hash.c:787-803 | no entry is in two places of the chains |
| HashTable.Table.Delete | core-hash.c:787-803 | frees exactly the entries ever linked, each once and never before its last read |
| Numa.NextNode | core-numa.c:166-187 | the first available node after the given one, going round at most once; the given one when there is none |
| Numa.NextIsUnique | core-numa.c:166-187 | that determines the node |
| Numa.NextInOrder | core-numa.c:177-184 | the least available node above the given one, or else the least of all, itself included last |
| Numa.PastTheEnd | core-numa.c:173-181 | the order searched from a node at or past the end of the range |
| Numa.TilesOnce | core-numa.c:344-373 | adjoining intervals contain each byte exactly once |
| Numa.PlanTiles | core-numa.c:344-373 | the bind calls tile the buffer in order, each byte in exactly one call |
| Numa.EachCallOneNode | core-numa.c:356-372 | every call sets exactly one bit of the mask, that of a drawn node; only the first can be empty, exactly when the first two draws differ |
| Numa.DrawnNode | core-numa.c:332-346 | a drawn node is an available one when there is one |
| Numa.ChunkBound | core-numa.c:344-373 | which node the call over each chunk names |
| Numa.BoundToOwnDrawIff | core-numa.c:344-363 | a chunk is bound to the node drawn for it if and only if no later draw differs |
| Numa.ChunkOnTheWrongNode | core-numa.c:344-373 | two nodes, two chunks and draws 1, 1, 0: the first chunk is drawn on node 0 and bound to node 1 |
| Numa.ChunksCover | core-numa.c:305-321 | halving meets the cap on chunks, and rounding the chunk size to whole pages costs at most one chunk more |
| Numa.CapIs | core-numa.c:306-307 | the cap keeps nodes times instances times calls within 2^18, as tightly as whole numbers allow, and is 65536 when there are none |
| Numa.ChunksNotLess | core-numa.c:314-315 | halving stops as soon as the cap is met |
| Numa.ChunkSizeIsPages | core-numa.c:319-321 | a chunk is a whole number of pages, at least one, and otherwise the most that fits its share of the buffer |
| Numa.BindRuns | core-numa.c:332-374 | the loop makes exactly the calls planned for the nodes after draws 0, 1, 2, ... and leaves the mask all zero; it stops at the first change of node at which the continue flag is down |
| Numa.Bind | core-numa.c:356-359 | set the bit, call, clear it: the mask passed has one bit and the mask left is unchanged |
| Numa.LimitChunks | core-numa.c:305-315 | halving the number of pages until it meets the cap |
| Numa.RandomizePages | core-numa.c:278-374 | the whole function: at most chunks + 1 passes, the calls planned for the nodes after draws 0, 1, 2, ..., which all have a bit in the mask, and the mask all zero; nothing at all for an empty plan |
| Primes.NoSmallDivisorIsPrime | core-prime.c:41-46 | a number with no divisor up to its root is prime |
| Primes.PrimeCheck | core-prime.c:31-47 | true if and only if n is prime, for every 64-bit n and every rounding of the root up to 2 above |
| Primes.Search | core-prime.c:94-99 | the loop finds the first prime candidate that does not divide n, if any within its tries |
| Primes.PrimeGet | core-prime.c:84-102 | that prime, or the give-up constant |
| Primes.PrimeSource.constructor | core-prime.c:59 | the static value starts at 1009 |
| Primes.PrimeSource.NextGet | core-prime.c:57-76 | the static value moves on to the next such prime, or back to 1009 |
| Primes.FirstGoodIsLeast | core-prime.c:94-99 | short of wrap-around nothing suitable is skipped |
| Primes.GivesUpIff | core-prime.c:94-99 | the search gives up if and only if none of its candidates, the odd numbers after the start modulo 2^64, is a prime that does not divide n |
| Primes.GivingUpTakes2000 | core-prime.c:94-101 | not stopped, it gives up only after 2000 candidates, and the constant returned is 2^64 - 59 |
| Primes.LeastPrimeAbove | core-prime.c:84-102 | for 1 <= n < 2^60 a prime that is found is the least prime above both 1009 and n made odd |
| Primes.FoundExceedsIff | core-prime.c:78-102 | a prime that is found exceeds n if and only if n < 2^60 |
| Primes.FoundPastTheMask | core-prime.c:84-102 | for n >= 2^60 whose low 60 bits are at most 1009 and which 1013 does not divide, the result is 1013 |
| Primes.NotAlwaysAbove | core-prime.c:78-87 | so the promise of a prime above n fails at n = 2^60 |
| Primes.ZeroGivesUp | core-prime.c:97 | for n = 0 the search always gives up |
| Primes.SuccessivePrimes | core-prime.c:49-76 | until a give-up or a wrap, successive results are strictly increasing primes, none dividing its n, each above its n when n < 2^60 |
| Primes.Euclid | core-prime.c:97 | Euclid's lemma, on which striding rests |
| Primes.StrideStep | stress-dentry.c:135-136 | slots are reached by adding the stride again and again, modulo the number of slots, the first being the stride itself |
| Primes.StrideVisitsAll | stress-dentry.c:133-142 | striding by a prime that does not divide m visits each of m slots exactly once |
| Primes.FoundPrimeStrides | core-prime.c:78-102 | whatever n > 0 is, a prime that is found strides over n slots |
| Primes.NextStridesIff | core-prime.c:57-76 | the result of the next-prime call strides over n slots if and only if a prime was found or 1009 does not divide n |
| Primes.StoppedStridesIff | stress-dentry.c:471 | called with the continue flag already down, as in the final clean-up, it strides over n slots if and only if 1009 does not divide n |
| Primes.StrideCanMissSlots | stress-dentry.c:133-142 | so over 1009 slots the stride is 1009 and slot 1 is never reached |
| Submasks.ExtractDeposit | core-helper.c:1561-1573 | extracting undoes depositing the bits of j into the set bits of flags |
| Submasks.DepositExtract | core-helper.c:1561-1573 | and depositing undoes extracting, on every submask |
| Submasks.DepositIncreases | core-helper.c:1561-1573 | deposits increase with j |
| Submasks.ExactlyTheSubmasks | core-helper.c:1535-1578 | the entries are strictly increasing and are exactly the submasks of the lowest 20 flags; there are 2 to the number of flags, at most 2^20 |
| Submasks.AllSubmasksIff | core-helper.c:1548-1552 | every submask of flags appears if and only if at most 20 bits are set |
| Submasks.Entry | core-helper.c:1561-1573 | the inner loop computes entry j, the deposit of j |
| Submasks.CountFlags | core-helper.c:1548-1549 | the shift loop counts the set bits |
| Submasks.FlagPermutation | core-helper.c:1535-1578 | the function fills an array with those entries; 0 and no array for a null result pointer or a failed allocation |
| Supervisor.StepKeepsInv | core-out-of-memory.c:271-438 | each kernel answer keeps the accounts of forks, reaps, restarts and signals |
| Supervisor.Escalation | core-out-of-memory.c:258-265 | signal k of a run is number min(k, 5) of the list, so SIGKILL comes only after four SIGALRMs and a SIGTERM |
| Supervisor.OneChildAtATime | core-out-of-memory.c:271-297 | a child is forked only when every child before it was reaped |
| Supervisor.ReportAccounts | core-out-of-memory.c:430-438 | at the report, forks = 1 + ooms + segvs + buserrs, and a non-zero result is the exit status of a child that exited |
| Supervisor.ExitIsReported | core-out-of-memory.c:390-438 | in every run the exit status of a child that exits is what the wrapper reports |
| Supervisor.FaultsRestart | core-out-of-memory.c:332-388 | in every run a child that dies of SIGBUS or SIGSEGV is restarted and counted as just that |
| Supervisor.OtherDeathsReport | core-out-of-memory.c:326-390 | any other signal death is reported as status 0, except SIGKILL before the fifth signal |
| Supervisor.WaitFailures | core-out-of-memory.c:297-325 | a wait that fails sends one more signal, unless there is no child; only a late failure after five signals gives up |
| Supervisor.ForkAnswers | core-out-of-memory.c:271-290 | before a fork: a stop returns success, lack of resources tries again, other failures return -1, and success waits for the child |
| Supervisor.CountersCount | core-out-of-memory.c:332-388 | over every run the counters are the numbers of children that died so, and no OOM kill is counted when OOM kills are allowed |
| Supervisor.MinusOneIsForkFailure | core-out-of-memory.c:276-287 | -1 is returned only after a fork that failed for good |
| Supervisor.CountedAsOomIff | core-out-of-memory.c:338-376 | a SIGKILL death is treated as an OOM kill if and only if fewer than five signals were sent in the whole run |
| Supervisor.OwnKillNotCounted | core-out-of-memory.c:338-376 | a SIGKILL the parent sent is never counted as an OOM kill |
| Supervisor.OomKillMissed | core-out-of-memory.c:338-376 | a run in which an OOM kill of a child that was sent nothing goes uncounted |
| Supervisor.OomableChild | core-out-of-memory.c:240-439 | the goto-driven loop is the state machine, for every sequence of kernel answers |
| MemoryPattern.MmapSet | core-mmap.c:41-101 | for any size, whole pages or not: every word of page k of the pages reached, up to the last block of 16 words begun, holds val + k, the rest is untouched; only a stop leaves pages out |
| MemoryPattern.WordOfPage | core-mmap.c:79-99 | every word of page k is given val + k modulo 2^64 |
| MemoryPattern.PagesDiffer | core-mmap.c:99 | no two pages are given the same word |
| MemoryPattern.MmapCheck | core-mmap.c:107-159 | for any size: -1 only if some 32-word group up to the end of the last page does not cancel out; 0 only if all groups of the pages reached do; only a stop leaves pages unchecked |
| MemoryPattern.CheckAfterSet | core-mmap.c:35-159 | a check after a complete set passes, also over a partial last page whose unwritten rest holds one value |
| MemoryPattern.GroupCancelsIff | core-mmap.c:120-154 | a group cancels out if and only if each of its bit columns was flipped an even number of times |
| MemoryPattern.PassesIff | core-mmap.c:107-159 | so the check passes if and only if that holds in every group |
| MemoryPattern.SingleWordCaught | core-mmap.c:107-159 | a change to a single word of data that passes is always caught |
| MemoryPattern.SameFlipsCaughtIff | core-mmap.c:116-155 | the same bits flipped in two words are caught if and only if the words lie in different groups of 32 |
| MemoryPattern.MmapSetLight | core-mmap.c:167-183 | the first word of page k holds val + k, and nothing else is written |
| MemoryPattern.MmapCheckLight | core-mmap.c:188-205 | 0 if and only if the page starts count up from the first word |
| MemoryPattern.OneChangeCaughtIff | core-mmap.c:160-205 | a change to one word of a buffer that passes the light check is caught if and only if the word is a page start and there is a second page |
| Base36.DecodeEncode | core-filesystem.c:528-540 | a decoder undoes the encoding |
| Base36.DigitIs | core-filesystem.c:530 | digits are a to z, then 0 to 9 |
| Base36.EncodeAt | core-filesystem.c:535-538 | character i is the digit of weight 36^i |
| Base36.EncodeInjective | core-filesystem.c:523-527 | different values get different names |
| Base36.FitsThirteen | core-filesystem.c:523-527 | a 64-bit value takes at most 13 characters, and only 0 takes none |
| Base36.EncodeUint64 | core-filesystem.c:528-540 | the loop leaves that name and its NUL inside the 14 bytes |
| PipeSize.Chop | core-filesystem.c:1126-1140 | whatever sizes are accepted, the chop ends before its 64th pass at a size that is accepted while the next is refused or is INT_MAX, unless even a page is refused |
| PipeSize.EdgeIsLargest | core-filesystem.c:1126-1140 | when larger sizes are refused first, that is the largest accepted size below INT_MAX |
| PipeSize.PipeLimit.constructor | core-filesystem.c:1094 | nothing is known at first |
| PipeSize.PipeLimit.Get | core-filesystem.c:1092-1147 | a known size, or a reported one that is at least a page and accepted, is returned and remembered; any other report is ignored, and a size found by the chop is returned and not remembered |

## Left out

- The pthread, mtx, futex and semaphore back ends of core-lock.c; back-off, yielding and time. A spinning acquire may give up at any failed test-and-set, which covers both acquire loops.
- Processes that die inside a library call or break the discipline stated above.
- The memset of a destroyed slot is two steps, magic then flag; wider tearing and memory ordering weaker than interleaving are not modelled.
- Interleavings inside `stress_net_reserve_ports`, the second release of its lock on the single-port path and the /proc/net scan: each call is atomic, the bound ports are an arbitrary bitmap, and whether the k-th attempt to take the lock succeeds is a parameter.
- Releases of port ranges that were never reserved appear in `Ports.PortMap.ReleasePorts` but not in the runs.
- The checksum of odd-sized data on a big-endian host, and the width of `size_t`.
- `stress_mwc64`, whose two draws have no defined order in one expression; `stress_mwc64modn` is covered as arithmetic by the Reduction lemmas with n = 2^64.
- The rejection-mask `modn` variants and the entropy gathering of `stress_mwc_reseed`.
- Null table and null string arguments of the hash table's functions, and the freeing of the table's own two blocks.
- The other hash functions of core-hash.c.
- The rounding of `sqrt`: the root is any max with isqrt(n) <= max <= isqrt(n) + 2.
- That the give-up constant 2^64 - 59 is prime; and the 64-bit wrap of the stride sum in stress-dentry.c, which needs n * p < 2^64.
- In the supervisor: the mode without a child process, the child's own side, logging and clean-up, and the 32-bit width of the counters.
- `Numa.RandomizePages`: the page size is rounded to with x - x % p, which is the source's masking for powers of two; null masks and buffers and the result of mbind are not modelled.
- `Numa.Mask` is the working mask; the mask of available nodes is a value, since nothing writes it.
- In the memory patterns: the `rep stosq` path, which random val is written, and page sizes that are not a multiple of 256 bytes.
- Permutations are unsigned; the source stores them as `int`, so an entry with bit 31 set is negative there.
- File, process and memory system calls, option parsing, and the floating-point and limit-probing code of the core files.
