# Verified model of the scanner's cores

This project models the parts of the scanner where its correctness is decided and proves what they promise.
`dafny verify dfyconfig.toml` checks all of it.

## What is modelled

**The address engine.** A list of allowed and denied prefixes becomes a binary trie (`TrieModel`, `TrieRuns`,
`Iptree`, `Wblist`, `ListCount`). Painting numbers the addresses of one value, whole /20 blocks first and the rest by
subtree counts (`TrieCount`). A cyclic group modulo a prime, its table of primes and roots certified row by row
(`Certificates`, `GroupTable`), is walked in pseudo-random order (`ModPower`, `Cyclic`, `CutRoots`) and cut into
subshards (`Subshards`), and each subshard turns group elements into addresses (`Visits`, `Shards`, `Scan`,
`ScanOnce`). The end of this chain is the method `Campaign.ScanLists`, which makes the list, sets up a cycle and runs
all shards, and the theorems about its answers: they are exactly the counted addresses, each once, iff no subshard is
idle and there are no more subshards than exponents (`ScanOnce.EveryAddressOnce`), and the counted addresses are the
intended ones exactly where `Campaign.CountsIntendedIff` says.

**The independent cores.** The glob matcher (`Fnmatch`, `FnmatchWritten`); the indexed string table with its mergesort
and its overlap by sorting (`Keys`, `Tables`, `TableIndex`, `MergeSort`, `TableOverlap`, `TableCompress`); the
table-driven AES cipher against FIPS 197 (`AesTables`, `AesModel`, `Aes`, `AesKeys`, `AesStandard`); the reader/writer
spinlock as interleaved atomic steps (`Rwlock`); the paged bitmap and the receiving side's duplicate filter
(`PagedBitmap`, `Receive`); the pool allocator (`Mpool`); and path merging under the secure root test (`Filepath`).

Code that changes things step by step is imperative here, too: classes with the source's fields, loops with
invariants, each method proved against a function whose own properties are lemmas. Machine widths are explicit: 32-bit
shifts, 64-bit products, unsigned differences and 32-bit counters wrap as in C. What the specifications themselves rest
on is tied down by theorems that do not use their definitions: what a written pattern matches, which keys are equal and
which comes first, how bytes are reversed, where a search starts, where a range begins, and the cipher's parts and one
whole example against the standard.

## Where the code departs from what is said about it

Each of these is modelled as the code is, with the exact condition under which the promise holds.

- The collapse of a subtree returns early on internal nodes (lib/common/xm_iptree.c:45), so a prefix overwrites the
  addresses below it, as lines 101-102 document, exactly when the node at the prefix is a leaf or nothing had to
  change (`OverwritesIff`, `LastEntryWinsIff`). Over a whole list an address gets its documented value iff the last
  entry that contains it takes effect (`DocumentedIff`), and a list of entries with values of their own meets the
  documentation after every add iff no prefix lies inside a shorter later one (`NestFreeIff`). Allowing a /24 and then
  denying the /8 around it leaves the /24 allowed (`NestedDenyFails`). With a working collapse the documentation is
  right (`CollapsingRun`).
- A bare address gets prefix length 256 (src/xm_wblist.c:68), so its leaf lies deeper than 32 and counts as nothing:
  allowing such an address changes no count (`LongAllowCountsNothing`), and a list of one has nothing to scan
  (`BareAddressCountsNothing`). An allowed address is counted iff it was not first allowed by a prefix of more than 32
  bits (`CountedIff`); denied prefixes of any length do no harm (`AllowedIsCounted`).
- In the group modulo 2^32 + 15 the 32-bit candidate wraps to 0, and the search divides by zero, exactly when the
  random start is one of the two last 32-bit words (`LargestGroupTraps`). The root found is cut to 32 bits: five
  accepted exponents are affected, and for exactly four of them the stored value generates no longer
  (`StoredRootIff`); from the start word 778923947 the stored generator is 1 (`GeneratorOne`). The 64-bit product
  wraps for factors above 2^32 - 14 (`NoWrapIff`), and where it wraps the walk leaves the cycle (`NextElemIff`).
- A subshard with nothing to hand out still answers its first question, for index 2^64 - 1 (src/xm_shard.c:108-111). The
  answer is never 0, and it is an address to be scanned iff 255.255.255.255 is one (`IdleAddress`). So a scan answers
  exactly the counted addresses, each once, iff every subshard has something to hand out (`EveryAddressOnce`), and
  with fewer addresses than subshards it never does (`TooFewAddresses`): with one allowed address and two subshards an
  address nobody allowed is answered (`OneAddressManyShards`).
- A `last` element of 2^32 or more is skipped (src/xm_shard.c:118) and never met. Such a subshard never ends: it goes
  on round the cycle and answers every counted address, and then all of them again (`AskSubshard`, `EndlessScan`).
- With more subshards than the order, each of them takes the whole turn (`MoreThanOrder`).
- Sending threads are numbered from 1 (src/xm_work.c:46) while a shard counts from 0: all exponents are still
  covered, and the overlap is exactly the remainder of the order by the number of subshards (`OneBasedCovers`,
  `OneBasedOverlap`); `OneBasedScan` says when no address is answered twice. Every sending thread also builds a cycle
  of its own (src/xm_send_task.c:284); the theorems are about subshards that share one cycle.
- The loop over the groups is bounded by the size of the array in bytes (src/xm_cyclic.c:120), so from the largest
  prime on it runs past the array (`GetCyclicGroup`); no list counts that many addresses (`CountFitsLimit`).
- The documentation of `[]` in patterns (lib/common/xm_fnmatch.h:67-68) is not what the code does: `[]` is no list and
  stands for itself (`EmptyListIsLiteral`), as any `[` does that no `]` follows (`UnclosedMatches`).
- Overlapping two tables equals setting or merging the second one's entries one by one (lib/common/xm_tables.h:412-427)
  exactly when the first table's keys are distinct (`OverlapIsInsertAll`).
- The room left in a pool block is an unsigned difference (lib/common/xm_mpool.c:140), honest at every fill exactly
  when the block's end is aligned (`HonestIffAligned`); aligned cuts therefore ask for a pool size that is a multiple
  of 8.
- The lock's counter is the number of readers only below 2^31 of them (`CounterExactIff`); mutual exclusion holds for
  any number of threads.

## Model

| member | source | states |
|---|---|---|
| TrieModel.InsertOutside | lib/common/xm_iptree.c:54-99 | adding a prefix changes no address outside it, with or without a working collapse |
| TrieModel.InsertInsideCollapsing | lib/common/xm_iptree.c:101-103 | with a working collapse every address of the added prefix gets the value |
| TrieModel.InsertEffect | lib/common/xm_iptree.c:54-99 | as written, an add changes the value and leaf depth that decide an address exactly as a three-case rule on depth, prefix length and value says |
| TrieModel.OverwritesIff | lib/common/xm_iptree.c:43-110 | as written, an add maps its whole prefix to the value iff the node at the prefix is a leaf or the prefix had the value everywhere |
| TrieModel.OverwritesEveryValueIff | lib/common/xm_iptree.c:43-110 | an add works for every value iff the node at its prefix is a leaf |
| TrieModel.UnderMeaning | lib/common/xm_iptree.c:83-89 | following the prefix's bits is agreement of the first len bits |
| TrieRuns.CollapsingRun | lib/common/xm_iptree.c:101-103 | after any sequence of adds with a working collapse, every address has the value of the last entry that contains it, else the default |
| TrieRuns.WrittenRun | lib/common/xm_iptree.c:54-111 | after any sequence of adds as written, the value and depth of every address are what a per-address machine tracks |
| TrieRuns.LastEntryWinsIff | lib/common/xm_iptree.c:101-111 | one more entry decides an address of its prefix as documented iff the address's leaf is not deeper than the prefix or has the value already |
| TrieRuns.DocumentedIff | lib/common/xm_iptree.c:101-111 | over any list, an address has its documented value iff the last entry that contains it takes effect: its leaf was not deeper then, or had the value |
| TrieRuns.NestFreeRun | lib/common/xm_iptree.c:101-111 | when no prefix lies inside a shorter later one, every address has its documented value |
| TrieRuns.NestFreeIff | lib/common/xm_iptree.c:101-111 | for entries with values of their own, the documentation is met after every add iff no prefix lies inside a shorter later one |
| TrieRuns.LongerLaterRun | lib/common/xm_iptree.c:101-111 | adds from short to long prefixes are such a list |
| TrieRuns.DepthBound | lib/common/xm_iptree.c:70-89 | no leaf is deeper than the longest accepted prefix |
| TrieRuns.UnmatchedRun | lib/common/xm_iptree.c:83-89 | entries that do not contain an address never change it |
| TrieRuns.NestedDenyFails | lib/common/xm_iptree.c:45-65 | a failing run: a /24 stays allowed under a /8 denied later, for every address |
| TrieCount.CountIsCardinality | lib/common/xm_iptree.c:186-217 | the recursive count over halves is the number of addresses with the value at leaves no deeper than the width |
| TrieCount.SelectRank | lib/common/xm_iptree.c:140-158 | the n-th address outside whole blocks has rank n, so the numbering loses none |
| TrieCount.RankSelect | lib/common/xm_iptree.c:140-158 | and the address at the rank of an address is that address |
| TrieCount.DescendSelects | lib/common/xm_iptree.c:140-158 | descending by subtree counts, with bits set by or-ing masks, finds the n-th address |
| TrieCount.BlockOfAddress | lib/common/xm_iptree.c:199-203 | the radix array takes over exactly the counted addresses that the tree counts exclude |
| TrieCount.IndexSound | lib/common/xm_iptree.c:160-184 | every index below the count answers a counted address, from the radix array first and the tree second |
| TrieCount.IndexInjective | lib/common/xm_iptree.c:160-184 | different indexes answer different addresses |
| TrieCount.IndexOnto | lib/common/xm_iptree.c:160-184 | every counted address has an index |
| TrieCount.TotalIsCount | lib/common/xm_iptree.c:266-276 | the painted fast count, the recursive recount and the number of counted addresses are equal |
| TrieCount.IdleIndex | lib/common/xm_iptree.c:139-184 | index 2^64 - 1 answers an address other than 0, a counted one iff the highest address is counted |
| TrieCount.IdleIndexIs | lib/common/xm_iptree.c:139-184 | that answer exactly: the leaf of the highest address, and in its free bits those of the index less the count |
| TrieCount.SelectAscends | lib/common/xm_iptree.c:140-158 | the addresses outside whole blocks are numbered in ascending order |
| TrieCount.IndexAscends | lib/common/xm_iptree.c:160-184 | indexes number the addresses of whole blocks first and then the others, each in ascending order |
| Iptree.Node.ConvertToLeaf | lib/common/xm_iptree.c:43-52 | never changes what a node means, as it returns early on internal nodes |
| Iptree.Node.Split | lib/common/xm_iptree.c:76-80 | turns a leaf into a node over two fresh leaves with its value |
| Iptree.Node.MergeLeaves | lib/common/xm_iptree.c:91-98 | the collapse after the recursion leaves the trie as it is |
| Iptree.Node.SetRecurse | lib/common/xm_iptree.c:54-99 | the recursion on a left-shifted 32-bit prefix is the insertion without collapse, lengths outside 0..256 ignored |
| Iptree.Node.SetBelow | lib/common/xm_iptree.c:83-98 | the top bit of the shifted prefix picks the child that changes |
| Iptree.Node.LookupIp | lib/common/xm_iptree.c:115-130 | the walk under a shifting mask finds the address's value, going left for good once the mask is 0 |
| Iptree.Node.LookupNode | lib/common/xm_iptree.c:219-241 | finds the node that decides a prefix |
| Iptree.Node.LookupIndex | lib/common/xm_iptree.c:139-158 | on painted counts, the loop is the descent that selects the n-th address |
| Iptree.Node.CountRecurse | lib/common/xm_iptree.c:186-217 | counts with or without whole blocks, and paints every node with its count |
| Iptree.IpTree.Add | lib/common/xm_iptree.c:104-111 | adding is inserting at the root, and unpaints |
| Iptree.IpTree.LookupIp | lib/common/xm_iptree.c:134-137 | the value of an address |
| Iptree.IpTree.PaintValue | lib/common/xm_iptree.c:245-264 | paints without changing the trie: node counts and radix array describe it |
| Iptree.IpTree.FillRadix | lib/common/xm_iptree.c:251-261 | the radix array lists the /20 blocks that one leaf maps to the value, in order |
| Iptree.IpTree.LookupIndex | lib/common/xm_iptree.c:164-184 | repaints when needed and answers the address with the index |
| Iptree.IpTree.CountIps | lib/common/xm_iptree.c:266-276 | after any calls, the count is the number of counted addresses, painted or not |
| Wblist.NtohlBytes | src/xm_wblist.c:32-35 | the lowest byte of an address becomes the highest, the second lowest the second highest, and so on |
| Wblist.NtohlInvolution | src/xm_wblist.c:32-35 | reversing the bytes of an address undoes itself |
| Wblist.AddAll | src/xm_wblist.c:158-170 | inserting a list is the run of its entries |
| Wblist.Wblist.Create | src/xm_wblist.c:189-264 | allowed prefixes, denied prefixes and 0.0.0.0 in this order; null iff nothing is left to scan |
| Wblist.Wblist.LookupIndex | src/xm_wblist.c:32-35 | the indexed allowed address with its bytes reversed |
| Wblist.Wblist.IsAllowed | src/xm_wblist.c:37-43 | true iff the value of the address with its bytes reversed is allowed |
| Wblist.Wblist.CountAllowed | src/xm_wblist.c:172-175 | the number of counted allowed addresses |
| Wblist.ZeroDisallowed | src/xm_wblist.c:242 | 0.0.0.0 is denied whatever the lists say |
| Wblist.LastMatchIsIntended | src/xm_wblist.c:205-242 | the last matching entry decides an address as the lists intend: denied if a denied prefix contains it, else by the allowed ones or the default |
| Wblist.IntendedIff | src/xm_wblist.c:205-242 | any list allows an address as intended iff the last of its insertions that contains the address takes effect |
| Wblist.NestFreeListIsIntended | src/xm_wblist.c:205-242 | a list without a prefix inside a shorter later one allows exactly what it intends |
| Wblist.CollapsingListIsIntended | src/xm_wblist.c:205-242 | with a working collapse, any list does |
| Wblist.NeverAllowsUnlisted | src/xm_wblist.c:205-221 | in any order, an address outside all allowed prefixes is never allowed |
| Wblist.BareAddressCountsNothing | src/xm_wblist.c:66-117 | a list of one bare address counts no address |
| ListCount.LongAllowCountsNothing | src/xm_wblist.c:66-117 | allowing a prefix of more than 32 bits leaves every address counted or not counted as it was |
| ListCount.CountedIff | src/xm_wblist.c:189-264 | for any lists, an allowed address is counted iff no allowed prefix of more than 32 bits was the first to allow it |
| ListCount.AllowedIsCounted | src/xm_wblist.c:189-264 | with allowed prefixes of at most 32 bits, whatever the denied ones, the counted addresses are the allowed ones |
| ListCount.CountFitsLimit | src/xm_send_task.c:276-282 | a count of allowed addresses never reaches 2^32 |
| ModPower.PowModIsPower | src/xm_cyclic.c:143-157 | reducing after each multiplication leaves the remainder of the power |
| ModPower.PowReduce | src/xm_cyclic.c:143-157 | exponents of a primitive root matter only modulo the order |
| ModPower.PowInjective | src/xm_cyclic.c:143-157 | powers below the order are different |
| ModPower.PowOnto | src/xm_cyclic.c:143-157 | every element 1..p-1 is a power of a primitive root |
| ModPower.CoprimePowerGenerates | src/xm_cyclic.c:95-97 | a primitive root to an exponent coprime to the order is a primitive root |
| Cyclic.CheckCoprime | src/xm_cyclic.c:76-93 | the factor loop accepts exactly the candidates no listed factor divides or is divided by; a zero candidate divides by zero |
| Cyclic.AcceptsMeans | src/xm_cyclic.c:76-93 | accepted are exactly the numbers above 0 that no listed factor divides and that divide none |
| Cyclic.AcceptedIsCoprime | src/xm_cyclic.c:76-93 | an accepted candidate is coprime to the group order |
| Cyclic.NeighbourAccepted | src/xm_cyclic.c:104-110 | p - 2 is always accepted, so the search ends |
| Cyclic.FindPrimroot | src/xm_cyclic.c:97-114 | the exponent is the word's low 32 bits modulo the prime if accepted, else the first accepted one behind it, cyclically; the result is the root to it, cut to 32 bits; traps iff a 32-bit candidate would wrap first |
| Cyclic.FoundGenerates | src/xm_cyclic.c:95-114 | before it is cut, the element found generates the whole group; below 2^32 the cut changes nothing |
| Cyclic.LargestGroupTraps | src/xm_cyclic.c:67-71 | in the largest group the search traps iff the start word is one of the two last ones |
| Cyclic.GetCyclicGroup | src/xm_cyclic.c:116-128 | the first built-in group that is large enough; past the array iff the size is the largest prime or more |
| Cyclic.MakeCycle | src/xm_cyclic.c:130-141 | order, offset and the cut power of the chosen exponent; in a group below 2^32 a generator of the whole group; traps iff no exponent up to 2^32 - 1 is accepted |
| Certificates.RootMakesPrime | src/xm_cyclic.c:47-71 | a modulus with a primitive root is prime |
| Certificates.EuclidsLemma | src/xm_cyclic.c:47-71 | a prime that divides a product divides one of its factors, so a factorisation lists all prime divisors |
| Certificates.OrderIsFull | src/xm_cyclic.c:47-71 | an element is a primitive root when its power at p - 1 is 1 and none at p - 1 over a prime divisor is |
| GroupTable.TableSound | src/xm_cyclic.c:42-71 | every row of the table is what it says: a prime, a root of order p - 1 and exactly the prime divisors of p - 1 |
| CutRoots.CutLogs | src/xm_cyclic.c:67-71 | the exponents of the fifteen elements from 2^32 on, by certified powers |
| CutRoots.StoredRootIff | src/xm_cyclic.c:97-114 | in the largest group, for every accepted exponent, the stored value generates the group iff the exponent is none of four named ones; the power fits 32 bits iff it is none of five |
| CutRoots.GeneratorOne | src/xm_cyclic.c:97-114 | from the start word 778923947 the stored generator is 1, which generates nothing |
| Subshards.CoversIff | src/xm_shard.c:37-54 | subshard i covers one share of the exponents counted from the offset, the last one also the remainder |
| Subshards.Partition | src/xm_shard.c:29-54 | every exponent belongs to exactly one of subshards 0..S-1, for every offset and 1 <= S <= Q |
| Subshards.MoreThanOrder | src/xm_shard.c:37-54 | with more subshards than exponents each of them covers every exponent |
| Subshards.WrappedCovers | src/xm_shard.c:43-54 | subshard number S takes the remainder and the first share |
| Subshards.OneBasedCovers | src/xm_work.c:44-46 | numbered from 1, the subshards still cover everything and none of it more than twice; twice exactly the remainder |
| Subshards.OneBasedOverlap | src/xm_work.c:44-46 | they overlap in exactly Q mod S exponents |
| Visits.EmitsIffCovers | src/xm_shard.c:122-139 | subshard i hands out an element iff it numbers an address and its exponent is one of the subshard's |
| Visits.EmitsNoDup | src/xm_shard.c:113-120 | within one turn no element is handed out twice |
| Visits.ExactlyOnce | src/xm_shard.c:17-140 | all subshards of a cut together hand out 1..max_index, each exactly once |
| Shards.NextElemIsMul | src/xm_shard.c:113-120 | the 64-bit multiply and modulo is the group multiplication where the product fits |
| Shards.NoWrapIff | src/xm_shard.c:113-120 | in the largest group the product never wraps iff the factor is at most 2^32 - 14 |
| Shards.NextElemIff | src/xm_shard.c:113-120 | in the largest group a step is the group multiplication iff its product fits 64 bits |
| Shards.NoWrapSmall | src/xm_shard.c:113-120 | in the smaller groups it never does |
| Shards.Shard.constructor | src/xm_shard.c:17-105 | first and last are the powers at the ends of the subshard; what it will hand out is exactly its part of the walk; with a last element of 2^32 or more it begins at its first valid element; its target limit is its share |
| Shards.Shard.RollToValid | src/xm_shard.c:8-15 | moves on from a first element that numbers no address |
| Shards.Shard.GetNextElem | src/xm_shard.c:113-120 | the next power below 2^32 |
| Shards.Shard.SeekStop | src/xm_shard.c:127-139 | steps to the first element that is the last one or numbers an address, counting the others below 2^32 |
| Shards.Shard.GetNextIp | src/xm_shard.c:122-140 | the next valid element's address, or the end for good once last is met; the counters grow by the elements stepped through |
| Shards.Shard.GetCurIp | src/xm_shard.c:108-111 | the address of the current element |
| Shards.CutMeans | src/xm_shard.c:29-54 | a subshard's range begins at its number of shares from the cycle's offset on, and ends at the next one's, the last at the first one's, modulo the order |
| Shards.TargetsMean | src/xm_shard.c:82-90 | a subshard's target limit is the quotient, and one more for as many of the first ones as remain |
| Shards.TargetsAddUp | src/xm_shard.c:82-90 | the subshards' target limits add up to the total |
| Shards.AddressableMeans | src/xm_shard.c:127-139 | what the second counter counts is the number of exponents whose powers are below 2^32 |
| Shards.StopIsLast | src/xm_shard.c:37-73 | the last element lies one walk of the subshard's length behind the first |
| Shards.AfterStop | src/xm_shard.c:122-139 | stepping to the next stopping element loses nothing that is to be handed out |
| Scan.AddressNotZero | src/xm_wblist.c:242 | no allowed element's address is 0, so 0 can mean the end |
| Scan.IdleAddress | src/xm_shard.c:108-111 | what a subshard without an element answers is not 0, and to be scanned iff 255.255.255.255 is |
| Scan.RunShard | src/xiterate.c:248-261 | asking for the current address and then for next ones until 0 answers exactly what the shard has to hand out, or one idle answer |
| Scan.ScanSubshard | src/xm_shard.c:17-140 | creating a subshard and running it to its end answers its part of the walk, or one idle answer |
| Scan.ScanAll | src/xm_shard.c:27-36 | running all shards with all their threads, numbered from any base, answers one subshard's part after the other |
| Scan.AskShard | src/xm_shard.c:113-140 | a shard whose last element is 2^32 or more answers every question; the answers are those of the valid elements in order, on and on round the cycle |
| Scan.AskSubshard | src/xm_shard.c:17-140 | the same from its creation on |
| ScanOnce.ExactIff | src/xm_shard.c:17-140 | when the subshards cover all exponents, the answers are exactly the counted addresses iff none is idle or 255.255.255.255 is counted |
| ScanOnce.OnceIff | src/xm_shard.c:17-140 | they are the counted addresses, each once, iff none is idle and no exponent of an address is covered twice |
| ScanOnce.EveryAddressOnce | src/xm_shard.c:17-140 | numbered from 0, any number of subshards of one cycle answers exactly the counted addresses, each once, iff they are no more than the order and none is idle |
| ScanOnce.TooFewAddresses | src/xm_shard.c:17-140 | with fewer addresses than subshards one is idle |
| ScanOnce.OneBasedScan | src/xm_work.c:44-46 | numbered from 1, they answer each counted address once iff none is idle and no exponent that two of them visit numbers an address |
| ScanOnce.EndlessScan | src/xm_shard.c:113-140 | the first answers of an endless subshard, as many as there are counted addresses, are all of them, each once |
| Campaign.CreateCycle | src/xm_send_task.c:274-284 | the limit is the number of counted addresses and the group is large enough; below 2^28 + 3 of them the cycle is sound and never wraps; from there on it traps iff the start word is one of the two last, is sound iff the exponent is none of the four broken ones, and never wraps iff the generator is at most 2^32 - 14 |
| Campaign.CountsIntendedIff | src/xm_wblist.c:189-264 | for any lists and address, exactly when the list counts the address iff it intends it |
| Campaign.NestFreeCountsIntended | src/xm_wblist.c:189-264 | lists with allowed prefixes of at most 32 bits and none inside a shorter later one count exactly what they intend |
| Campaign.IntendedScan | src/xm_send_task.c:274-290 | for such lists and every cycle, the subshards numbered from 0 answer exactly the intended addresses, each once, iff they are no more than the order and none is idle |
| Campaign.OneAddressManyShards | src/xm_shard.c:108-111 | a failing scan: one allowed address and at least two subshards also answer an address nobody allowed |
| Campaign.ScanLists | src/xm_send_task.c:274-290 | making the list, setting up a cycle and running all shards: the answers are the subshards' parts, and numbered from 0 exactly the counted addresses, each once, iff no more than the order and none idle |
| Fnmatch.ScanList | lib/common/xm_fnmatch.c:40-103 | scanning a list against a character finds its end and whether one of its ranges holds the character |
| Fnmatch.FnmatchCh | lib/common/xm_fnmatch.c:21-138 | consumes one token and one character, and succeeds iff the token accepts the character |
| Fnmatch.StarsCollapse | lib/common/xm_fnmatch.c:212-227 | two stars in a row mean one |
| Fnmatch.LaterQuestion | lib/common/xm_fnmatch.c:212-227 | under an open star a question mark takes one character, so groups of both reduce to question marks and one star |
| Fnmatch.LaterAnchored | lib/common/xm_fnmatch.c:237-254 | a last segment must take the last characters of the string |
| Fnmatch.LeftmostSuffices | lib/common/xm_fnmatch.c:286-318 | the leftmost place where a segment before a star fits decides |
| Fnmatch.NoRoom | lib/common/xm_fnmatch.c:248-264 | with fewer characters than fixed tokens left there is no match, so giving up early is right |
| Fnmatch.MeasureSegment | lib/common/xm_fnmatch.c:237-283 | counts the fixed tokens up to the next star or the end |
| Fnmatch.Wildcards | lib/common/xm_fnmatch.c:212-232 | a group of stars and question marks takes one character for each question mark and opens a gap if there is a star |
| Fnmatch.Segment | lib/common/xm_fnmatch.c:201-322 | one round of the loop keeps whether pattern and string match, or finds that they do not |
| Fnmatch.FnMatch | lib/common/xm_fnmatch.c:141-340 | returns 0 exactly when the pattern matches the whole string under the recursive meaning of a star, and 1 otherwise |
| Fnmatch.EmptyListIsLiteral | lib/common/xm_fnmatch.h:67-68 | the pattern [] matches the string [] and nothing else |
| FnmatchWritten.WrittenMeans | lib/common/xm_fnmatch.h:36-68 | every pattern that is written from letters, escaped letters, question marks, stars and bracket lists of characters and ranges matches exactly the strings its pieces mean |
| FnmatchWritten.ListMatches | lib/common/xm_fnmatch.c:31-100 | a list of plain characters matches one of them and nothing else |
| FnmatchWritten.NegatedListMatches | lib/common/xm_fnmatch.c:35-38 | with a leading ! or ^ it matches one character that is not listed |
| FnmatchWritten.ListOfOne | lib/common/xm_fnmatch.c:31-100 | [x] matches x and nothing else |
| FnmatchWritten.ListWithoutOne | lib/common/xm_fnmatch.c:35-38 | [!x] and [^x] match every one character but x |
| FnmatchWritten.RangeMatches | lib/common/xm_fnmatch.c:66-90 | [x-y] matches one character from x to y |
| FnmatchWritten.LeadingCloseMatches | lib/common/xm_fnmatch.c:40-42 | a ] at the beginning of a list is listed |
| FnmatchWritten.EscapedMatches | lib/common/xm_fnmatch.c:52-58 | behind a backslash any character means itself, in a list and outside |
| FnmatchWritten.WildcardsMatch | lib/common/xm_fnmatch.h:40-46 | ? matches one character and * every string |
| FnmatchWritten.TextMatches | lib/common/xm_fnmatch.h:48-49 | other characters match themselves |
| FnmatchWritten.UnclosedMatches | lib/common/xm_fnmatch.c:102-107 | a [ that no ] follows matches itself, and the rest means what it means alone |
| Keys.SameMeans | lib/common/xm_tables.c:452-453 | keys are equal iff they are of one length and differ at most in the case of the letters A to Z |
| Keys.CompareMeans | lib/common/xm_tables.c:932-938 | a key is above another iff at their first difference its byte, in lower case, is the larger, or the other one ends |
| Keys.CompareZero | lib/common/xm_tables.c:452-453 | the comparison is 0 iff the keys are equal ignoring case |
| Keys.CompareTransitive | lib/common/xm_tables.c:932-938 | the comparison orders keys transitively |
| Keys.HashMeans | lib/common/xm_tables.c:265-267 | the index slot is the first byte modulo 32, 0 for the empty key |
| Keys.ChecksumMeans | lib/common/xm_tables.c:271-298 | the checksum of four ASCII bytes is these bytes, the first one highest, without their case bits |
| Keys.SameHash | lib/common/xm_tables.c:265-267 | keys equal ignoring case have the same index slot |
| Keys.SameChecksum | lib/common/xm_tables.c:271-298 | the masked four-byte checksum never tells equal keys apart |
| TableIndex.Table.Reindex | lib/common/xm_tables.c:409-424 | one scan makes every index slot exact: bit clear iff no key hashes there, else first and last are its extremes |
| TableIndex.Table.Scan | lib/common/xm_tables.c:443-458 | the indexed, checksum-filtered search finds the first equal key of a full linear scan |
| TableIndex.Table.Get | lib/common/xm_tables.c:432-459 | get finds the value of the first entry whose key differs at most in the case of its letters, and nothing iff there is none |
| TableIndex.Table.Add | lib/common/xm_tables.c:734-774 | appends and keeps the index exact |
| TableIndex.Table.Set | lib/common/xm_tables.c:461-603 | gives the first equal key the value, drops the later ones, or appends; keeps the index exact |
| TableIndex.Table.RemoveAfter | lib/common/xm_tables.c:492-517 | the in-place compaction removes exactly the equal keys and keeps the others in order |
| TableIndex.Table.Unset | lib/common/xm_tables.c:605-657 | removes all equal keys, keeps the others in order and the index exact |
| TableIndex.Table.Merge | lib/common/xm_tables.c:659-732 | extends the first equal key's value by a comma and the new one, or appends; keeps the index exact |
| Tables.LookupSame | lib/common/xm_tables.c:432-459 | keys equal ignoring case look up the same value |
| Tables.LookupMeans | lib/common/xm_tables.c:432-459 | a lookup finds the first entry whose key differs at most in the case of its letters |
| Tables.LookupIgnoresCase | lib/common/xm_tables.c:432-459 | keys that differ at most in the case of their letters look up the same value |
| Tables.JoinTwoMeans | lib/common/xm_tables.c:682 | joined values are the first, a comma, a blank and the second |
| Tables.SetPlace | lib/common/xm_tables.c:461-531 | a set writes to the place of the first equal key or behind the last entry, and changes nothing before it |
| Tables.MergePlace | lib/common/xm_tables.c:659-694 | a merge does so and changes no other entry |
| Tables.LookupAfterSet | lib/common/xm_tables.c:461-531 | after a set the key has the new value and every other key its old one |
| Tables.SetKeepsOthers | lib/common/xm_tables.c:461-531 | a set keeps the entries with other keys, in order |
| Tables.LookupAfterRemove | lib/common/xm_tables.c:605-657 | after an unset the key is gone and every other key has its old value |
| Tables.LookupAfterMerge | lib/common/xm_tables.c:659-694 | after a merge the key has its old value, a comma, a blank and the new one, and every other key its old value |
| MergeSort.SortCorrect | lib/common/xm_tables.c:920-1012 | for every length the sort is a sorted permutation that keeps the order of equal keys |
| MergeSort.SortAscends | lib/common/xm_tables.c:932-938 | no sorted key is above a later one at their first difference |
| MergeSort.MergeFilter | lib/common/xm_tables.c:963-991 | merging sorted blocks, the first preferred, keeps the order of equal keys |
| MergeSort.PassSorts | lib/common/xm_tables.c:948-1008 | a pass over sorted blocks leaves sorted blocks of double size, the last one maybe shorter |
| MergeSort.SortPairs | lib/common/xm_tables.c:932-939 | the pair pass is the pass for blocks of one |
| MergeSort.MergeBlocks | lib/common/xm_tables.c:963-991 | merges two neighbouring blocks of the array |
| MergeSort.MergePass | lib/common/xm_tables.c:943-999 | one pass from one buffer into the other, leftovers copied |
| MergeSort.Mergesort | lib/common/xm_tables.c:920-1012 | doubling passes with swapped buffers compute the sort: sorted, a permutation, stable |
| TableOverlap.CombineMeans | lib/common/xm_tables.c:1048-1103 | of several values the last one counts, or they are joined by commas and blanks in order |
| TableOverlap.CompressedStep | lib/common/xm_tables.c:1014-1119 | compressing one entry more is setting or merging it into the compressed rest |
| TableOverlap.CompressedIdentity | lib/common/xm_tables.c:1014-1119 | compressing changes nothing iff the keys are distinct |
| TableOverlap.CompressedConcat | lib/common/xm_tables.h:412-427 | compressing a concatenation is setting or merging the second part's entries one by one |
| TableOverlap.OverlapIsInsertAll | lib/common/xm_tables.h:412-427 | the documented equivalence holds for every second table iff the first one's keys are distinct |
| TableCompress.RunFacts | lib/common/xm_tables.c:1048-1103 | a maximal run of equal sorted keys starts with the key's first occurrence and lists all its values in order |
| TableCompress.CollapseRuns | lib/common/xm_tables.c:1048-1103 | walking the sorted positions gives each head its value and marks exactly the later occurrences |
| TableCompress.ShiftOut | lib/common/xm_tables.c:1105-1116 | shifting out the marked entries leaves each key once, in place of its first occurrence |
| TableCompress.Compress | lib/common/xm_tables.c:1014-1119 | each key is left once, where it first occurred, with its last or its joined value, and the index is exact |
| TableCompress.Cat | lib/common/xm_tables.c:1121-1145 | concatenates and makes the index exact from the two indexes, without a scan |
| TableCompress.Overlap | lib/common/xm_tables.c:1147-1159 | sorting and compressing equals setting or merging one by one when the first table's keys are distinct |
| AesTables.SBoxesInverse | lib/common/rijndael-alg-fst.c:262-586 | the tables S and Si undo each other on all 256 bytes |
| AesTables.UnmixMix | lib/common/rijndael-alg-fst.c:31-44 | InvMixColumns undoes MixColumns on a column |
| AesTables.UnmixAdd | lib/common/rijndael-alg-fst.c:31-44 | InvMixColumns is linear |
| AesTables.EncryptColumn | lib/common/rijndael-alg-fst.c:31-37 | four Te lookups add up to MixColumns of four substituted bytes |
| AesTables.DecryptColumn | lib/common/rijndael-alg-fst.c:38-43 | four Td lookups add up to InvMixColumns of four substituted bytes |
| AesTables.MaskedColumn | lib/common/rijndael-alg-fst.c:921-944 | masked lookups of a last round put four bytes side by side |
| AesTables.KeyColumn | lib/common/rijndael-alg-fst.c:728-748 | Td through Te4 is InvMixColumns of a key word |
| AesModel.InvCipherUndoes | lib/common/rijndael-alg-fst.c:752-1140 | the inverse cipher of section 5.3 of FIPS 197 undoes the cipher under any round keys |
| AesModel.EqInvCipherIsInvCipher | lib/common/rijndael-alg-fst.c:705-750 | under the decryption schedule the equivalent inverse cipher of section 5.3.5 is the inverse cipher |
| AesModel.DecryptUndoesEncrypt | lib/common/rijndael-alg-fst.c:705-1140 | decrypting under the decryption schedule undoes encrypting, for every schedule and block |
| Aes.EncryptRound | lib/common/rijndael-alg-fst.c:896-945 | a round of lookups is the round of bytes: SubBytes, ShiftRows, MixColumns, AddRoundKey; the last one without MixColumns |
| Aes.DecryptRound | lib/common/rijndael-alg-fst.c:1091-1139 | the same for the inverse rounds |
| Aes.Encrypt | lib/common/rijndael-alg-fst.c:752-945 | the rolled loop of two half rounds computes the cipher of section 5.1 on a byte block, in place if wanted |
| Aes.Decrypt | lib/common/rijndael-alg-fst.c:947-1140 | and the equivalent inverse cipher |
| AesKeys.RconIsPower | lib/common/rijndael-alg-fst.c:587-593 | the round constants are the powers of {02} |
| AesKeys.RotWordMeans | lib/common/rijndael-alg-fst.c:634-638 | the rotation is by one byte to the left |
| AesKeys.ScheduleRecurs | lib/common/rijndael-alg-fst.c:621-698 | each word of an expanded key, in shifts: the word a key length back plus the last one, which is rotated, substituted and given a round constant at the beginning of a period, and substituted in the middle of one of eight |
| AesKeys.Step | lib/common/rijndael-alg-fst.c:635-697 | what the source computes for each word of a period is section 5.2's recurrence |
| AesKeys.Expand128 | lib/common/rijndael-alg-fst.c:631-647 | the 128-bit loop fills 44 words of the expanded key |
| AesKeys.Expand192 | lib/common/rijndael-alg-fst.c:650-668 | the 192-bit loop fills 52 words |
| AesKeys.Expand256 | lib/common/rijndael-alg-fst.c:671-696 | the 256-bit loop fills 60 words |
| AesKeys.KeySetupEnc | lib/common/rijndael-alg-fst.c:621-698 | the array begins with the key's bytes, the first of each word highest, and every further word is what the recurrence in shifts says; unknown sizes return 0 with eight words loaded |
| AesKeys.ReverseKeys | lib/common/rijndael-alg-fst.c:713-726 | swapping from both ends reverses the order of the round keys |
| AesKeys.UnmixKeys | lib/common/rijndael-alg-fst.c:728-748 | applies InvMixColumns to all round keys but the first and the last |
| AesKeys.KeySetupDec | lib/common/rijndael-alg-fst.c:705-750 | the decryption schedule is the one the equivalent inverse cipher asks for |
| AesKeys.RoundTrip | lib/common/rijndael-alg-fst.c:621-1140 | for every 128, 192 or 256-bit key and every block, what decryption computes from what encryption computes is the block |
| AesKeys.ThereAndBack | lib/common/rijndael-alg-fst.c:621-1140 | setting both schedules up, encrypting and decrypting leaves every block as it was |
| AesStandard.DoubleMeans | lib/common/rijndael-alg-fst.c:31-44 | doubling is a shift, reduced by 0x1b when a bit leaves the byte |
| AesStandard.SBoxMeans | lib/common/rijndael-alg-fst.c:262-586 | S is the inverse in the field, 0 for 0, behind the affine transformation of section 5.1.1 of FIPS 197, and Si undoes it |
| AesStandard.SubBytesMeans | lib/common/rijndael-alg-fst.c:896-945 | SubBytes substitutes each of the sixteen bytes |
| AesStandard.ShiftRowsMeans | lib/common/rijndael-alg-fst.c:896-945 | ShiftRows moves row r of the bytes r columns to the left |
| AesStandard.MixColumnsMeans | lib/common/rijndael-alg-fst.c:31-37 | MixColumns multiplies each column by the matrix of section 5.1.3 in the field |
| AesStandard.AddRoundKeyMeans | lib/common/rijndael-alg-fst.c:760-765 | AddRoundKey adds each key word to its column, the highest byte first |
| AesStandard.AppendixB | lib/common/rijndael-alg-fst.c:621-945 | for the key and input of FIPS 197's Appendix B, schedule and cipher give its output |
| Rwlock.StepConsistent | lib/common/xm_rwlock.h:51-115 | every atomic step of any thread keeps the counter consistent with the holders |
| Rwlock.RunConsistent | lib/common/xm_rwlock.h:51-115 | so do all runs of any number of threads |
| Rwlock.MutualExclusion | lib/common/xm_rwlock.h:51-115 | in every run a writer never coexists with another holder |
| Rwlock.CounterMeaning | lib/common/xm_rwlock.h:51-115 | the counter is -1 iff a writer holds the lock, and otherwise the number of readers iff they are fewer than 2^31 |
| Rwlock.CounterExactIff | lib/common/xm_rwlock.h:51-72 | the counter is exact in all runs iff there are fewer than 2^31 threads |
| Rwlock.WriterEntersIff | lib/common/xm_rwlock.h:87-103 | an undisturbed attempt to write succeeds iff the counter is 0, and then makes it -1 |
| Rwlock.ReaderEntersIff | lib/common/xm_rwlock.h:51-67 | an undisturbed attempt to read succeeds iff the counter is not negative, and then counts one more |
| Rwlock.ReleaseUndoes | lib/common/xm_rwlock.h:51-115 | releasing the lock undoes taking it |
| PagedBitmap.SamePlace | lib/common/xm_pbm.c:36-48 | page, byte and bit identify a number |
| PagedBitmap.Bitmap.Check | lib/common/xm_pbm.c:36-55 | true iff the number was set |
| PagedBitmap.Bitmap.Set | lib/common/xm_pbm.c:43-67 | adds exactly the number, allocating its page if need be |
| Receive.FirstsAreTheSet | src/xm_recv_task.c:92-104 | the sources at their first accepted packet are the set of accepted sources, each once |
| Receive.CountersOrdered | src/xm_recv_task.c:99-111 | below 2^32 accepted packets, success_unique is the number of sources, cooldown_unique <= cooldown_total and <= success_unique |
| Receive.CountsMean | src/xm_recv_task.c:53-111 | the counts of rejected packets, fragments and packets in cooldown are the numbers of such packets |
| Receive.Receiver.IsRepeat | src/xm_recv_task.c:91-92 | true iff the source was accepted before |
| Receive.Receiver.Remember | src/xm_recv_task.c:101-104 | the bitmap then holds the sources seen, and this one |
| Receive.Receiver.Handle | src/xm_recv_task.c:53-141 | over every run the bitmap is the set of accepted sources and every counter counts, modulo 2^32, what it is named for; with duplicates filtered, each source is processed once, at its first packet |
| Mpool.HonestIffAligned | lib/common/xm_mpool.c:133-144 | the unsigned check for room is honest at every fill of a block iff the block's end is aligned |
| Mpool.FullMeans | lib/common/xm_mpool.c:133-144 | a block is full iff the region would end behind the block's end |
| Mpool.InsideOneBlock | lib/common/xm_mpool.c:125-151 | a region cut from the pool lies in the used part of one block, behind its header |
| Mpool.ChunkApart | lib/common/xm_mpool.c:125-151 | it is disjoint from every other live region, list nodes included |
| Mpool.Pool.constructor | lib/common/xm_mpool.c:13-37 | a pool on an aligned block |
| Mpool.Pool.AllocSmall | lib/common/xm_mpool.c:125-151 | a region from the first block with room from the current one on, aligned if asked, or from a new block when all are full; 0 iff all are full and there is no new block |
| Mpool.Pool.AllocBlock | lib/common/xm_mpool.c:89-123 | a new block at the end of the chain with an aligned region behind its header |
| Mpool.Pool.AllocLarge | lib/common/xm_mpool.c:156-192 | a system region recorded in an empty one of the first five nodes or in a new one; 0 iff the system has none or no node can be had |
| Mpool.Pool.Palloc | lib/common/xm_mpool.c:194-202 | an aligned region that overlaps no live one; live regions stay live; 0 iff there is neither room nor memory |
| Mpool.Pool.Pnalloc | lib/common/xm_mpool.c:205-213 | the same without alignment |
| Mpool.Pool.Pmemalign | lib/common/xm_mpool.c:215-237 | a region with the requested alignment that overlaps no live one; 0 iff the system has none or no node can be had |
| Mpool.Pool.Pfree | lib/common/xm_mpool.c:240-255 | gives exactly the named large region back; succeeds iff the pool owns it |
| Mpool.Pool.Reset | lib/common/xm_mpool.c:68-87 | gives all large regions back, none forgotten, and empties every block |
| Filepath.SplitConcat | lib/common/xm_filepath.c:172-179 | splitting a path into segments loses nothing |
| Filepath.StackIff | lib/common/xm_filepath.c:185-235 | a walk stays below the root iff no prefix of it has more steps up than names |
| Filepath.StackNames | lib/common/xm_filepath.c:181-244 | what remains are walked names, no step up among them |
| Filepath.MergedFits | lib/common/xm_filepath.c:133-140 | a merged path begins with its root and fits the buffer with its terminating 0 |
| Filepath.NotBackpathed | lib/common/xm_filepath.c:187-210 | while a name is left the path is neither the root nor ends in a step up |
| Filepath.StepUp | lib/common/xm_filepath.c:185-235 | a step up in the buffer crops exactly the last name, and fails iff there is none |
| Filepath.MergedName | lib/common/xm_filepath.c:181-244 | a name stays below the root, behind a dot, too |
| Filepath.MergedNames | lib/common/xm_filepath.c:181-244 | two names stay, and an empty one between them is dropped |
| Filepath.MergedUp | lib/common/xm_filepath.c:185-235 | a step up takes the name before it away; one without a name and a leading slash leave the root |
| Filepath.MergedTooLong | lib/common/xm_filepath.c:133-140 | only the lengths decide whether the result is too long |
| Filepath.Merge | lib/common/xm_filepath.c:65-274 | under the secure root test the merge succeeds iff the stack walk does, with the slash-terminated root followed by the remaining names |

## Left out

- Scan.RunShard: asks for a `last` element below 2^32, because line 118 of src/xm_shard.c skips larger ones and the run never ends; `AskShard` says what it answers then.
- Scan.ScanSubshard: asks for the same; `AskSubshard` is its counterpart.
- Scan.ScanAll: asks for subshards that end.
- Shards.Shard.constructor: asks for a generator of the whole group whose products fit 64 bits; `StoredRootIff` and `NoWrapIff` say exactly when the source's cycles are such, and what a walk off the cycle visits is not modelled.
- Campaign.ScanLists: below 2^28 + 3 addresses for all random words; beyond, for those with which the search ends, the stored value generates the group without wrapping, and every shard ends; `CreateCycle` says exactly when the first three hold, `AskSubshard` what a shard does that never ends.
- Mpool.Pool.AllocSmall: asks for a pool size that is a multiple of 8 when it cuts aligned regions, because the source's check for room lets an aligned region run past the block otherwise (`HonestIffAligned`).
- Receive.Receiver.Handle: takes the outcome of validation and the length check as given with the packet; the probe modules and the store are not part of this model.
- Mpool.Pool.Alloc: takes what malloc and memalign answer as parameters and assumes that they answer unused, suitably aligned memory; memory outside the pool is not modelled.
- Filepath.Merge: covers the flags XM_FILEPATH_SECUREROOTTEST alone and a given root; the other flags, the working directory as root and a failing allocation are left out.
- The random words of the AES generator are arbitrary words here; each word feeds the group search and the offset.
- Shard counters are not initialised by the source (src/xm_shard.c:23), so their facts are about increments.
- Hostname resolution, file reading and the textual parsing of prefixes; a list is a sequence of prefixes, lengths and values.
- Single source functions appear as several methods where their parts are proved apart: the set recursion, painting, the glob matcher's loop, the mergesort, the table's set and unset, compress, the key schedule, merging.
- Table entries are kept in a sequence field and the index bits in a set of slots; string duplication, the two flavours with and without copying, and sharing of strings between tables are not modelled.
- The block chain of a pool and its list of large allocations are sequences, not linked records; the cleanup handlers and pool destruction are left out.
- The eight product tables of the cipher are defined by the equations in the source's comment (lib/common/rijndael-alg-fst.c:31-44); only the two S-boxes are entered as tables.
- The atomic operations of the lock are single steps; fairness and the length of a spin are not modelled.
- xm_fnmatch with XM_FNM_PATHNAME, XM_FNM_PERIOD or XM_FNM_CASE_BLIND, and the directory walk.
- Sending, rate control, option parsing, logging, formatted printing and the message store.
