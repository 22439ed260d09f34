# Model of HMap and Yarrp

HMap (`HMapc/`) and Yarrp (`Yarrp/`) probe the Internet. Both promise the same thing: every
allowed target once, in an order that looks random, shared out over machines and threads, and
no probe to a blocked address. This project models the code that carries that promise. It proves
the parts that hold, for every input, and where the code breaks the promise it gives the exact
condition and an input.

One module a file; the object whose fields the source changes is a class, the loop is a loop,
and the value it stands for is a function in the contract.

- `ConstraintTree`, `Constraint`, `Blocklist`: the binary prefix tree of allowed addresses, its
  painted counts and radix array, rank lookup, and the allow and block lists.
- `Cyclic`, `ShardWalk`, `Shard`: the multiplicative group modulo a prime that orders the
  targets, its division into subshards, and one subshard's walk.
- `SendMachine`, `Send`, `Iterator`, `Scan`: the send loop, its limits, the threads in any
  interleaving, the completion callback, and the scan of all machines together.
- `Bits`, `Patricia`, `BgpTable`: the Patricia trie with parent links and glue nodes, and the
  routing table in which block prefixes come first.
- `Cperm`, `IpList`: cycle walking and the sorted prefix vector over an arbitrary cipher, and the
  target lists that cut each permuted number into a target and a TTL.
- `Speck`, `Entire`: SPECK 48/96, and the Internet-wide IPv6 loop over the prefix table.
- `Checksum`: Internet checksums (RFC 1071) and the data word that forces a wanted checksum.
- `Tga`: clustering of seeds into patterns, and the in-place expansion of patterns.
- `Numbers`, `Wrappers`: arithmetic, bits, the pigeonhole principle; optional values.

The concepts behind the main results: a `Book` is the outcome of loading the lists (the set of
allowed prefixes and the painted tree that numbers their targets); a `Cycle` is a group with a
generator and an offset; `Walk` is the sequence of valid indices a range of exponents meets; `Run`
is the sequence of targets one sender probes and `RunPackets` the packets for them; a node of the
trie has the bit string it stands for as its ghost `key`; `Contents` of a prefix table is the map
from stored prefixes to values and `Match` the longest-prefix match in such a map.

## What the proofs found

- A subshard that meets no valid index still looks one up: `shard_init` leaves `current` at the
  end marker 0, and `shard_get_current_ip_prefix_port_index` (HMapc/src/shard.c:218-257) asks for
  index -1, which the radix branch of the lookup answers with the second radix entry and all
  offset bits set. "Each target once" holds if and only if no subshard is empty, or that stray
  target is dropped by the slot test or the end marker (`ShardWalk.ScanIsExact`); "no probe to a
  blocked address" if and only if one of these is so or the stray target is itself allowed
  (`ShardWalk.ScanIsSafe`).
- The stray target is allowed when the radix array has a second entry (`Scan.StrayIsAllowed`).
  With fewer targets than two radix blocks hold it is the last address of the first block,
  whatever the lists say (`Scan.StrayOfFew`). So an IPv4 scan with the allow list 10.0.0.0/30 on 5
  machines probes 0.0.15.255 (`Scan.OutsideExample`).
- No subshard is empty when the targets and one range together exceed the order of the cycle
  (`ShardWalk.NoneEmpty`), and one is when there are fewer targets than subshards
  (`ShardWalk.FewTargets`). Inputs at which targets are probed twice: 4 of 8 addresses on 5
  machines of one thread, with any random numbers (`Scan.InexactExample`), and on 4 machines with
  the cycle made from the random numbers 3 and 0 (`Scan.CrowdedExample`).
- The interface identifiers of a host pile up: send.c ors each one into the destination that
  already holds the earlier ones (HMapc/src/send.c:355-360). A round probes its own identifier
  exactly when the bits of all earlier ones are set in that address (`Send.RoundIsOwn`); with the
  identifiers 1 and 2 the second round does not (`Send.PileUpExample`).
- `find_primroot` starts at a random number below 2^128. It finds a generator exactly when the
  exponent is an accepted candidate that the search reaches from there
  (`Cyclic.GeneratorsFound`). For a prime below 2^128 those are all generators but the one the
  table names (`Cyclic.AllButTheRoot`); for the larger primes of the table, exponents beyond
  2^128 are out of reach but for the first accepted one.
- In random list mode no target index is out of bounds exactly when the numbers that occur are no
  more than targets times the power of two below or at the largest TTL; for a list within the
  limit (2^32 numbers, for IPv4 0xffffffff) that means a largest TTL that is a power of two
  (`IpList.RandomList.PlanInBounds`). Each pair of a target and a TTL comes exactly once if and
  only if the largest TTL is a power of two and the list is within the limit
  (`IpList.RandomList.PlanIsExact`). One target with a largest TTL of 3 fails both
  (`IpList.ThreeTtls`).
- An announcement with AS number 0 blocks those of its addresses that no earlier line covers with
  a prefix as long, whatever follows (`BgpTable.ProbedExactly`, `BgpTable.ZeroLineBlocks`).
- A seed that is alone in its cluster is not a target: only entries with a wildcard are expanded
  (`Tga.LoneSeed`, `Tga.TargetsAre`).
- `cperm.h` allows a range of up to 2^32; cycle walking gives a permutation exactly when the range
  does not exceed the number of cipher blocks (`Cperm.WalkPermutes`). The IPv4 list reduces each
  number modulo 0xffffffff, so that it is exact only up to that size (`IpList.FoldedExact`).
- `patricia_remove` on a node with two children clears `prefix` and `data` but not `user1`; adding
  the prefix again brings the old value back (`BgpTable.PrefixTable.RemoveEntry`,
  `BgpTable.PrefixTable.Add`).
- `p_cksum` shifts a promoted unsigned short into the sign bit, and writes a 16-bit `htons` value
  into the 32-bit length of the IPv6 pseudo-header. Both leave the sum unchanged modulo 0xffff
  (`Checksum.PCksum`, `Checksum.OverlaySums`).
- `internet6` only asks whether an address has a value in the table, and a blocked address has
  the value 0. A whole run of this loop, which nothing calls, in which the TTL histogram and the
  biased draw drop nothing, therefore probes a blocked address exactly when some block meets the
  prefixes it generates (`Entire.BlockedAreProbed`), for instance 2001::/16
  (`Entire.BlockedExample`). With announcements this is open for blocks of more than 96 bits: the
  loop asks about the new prefix with the last four bytes of the last address that passed. The
  loop in `yarrp.cpp` also tests for 0.

## Assumptions

The primes, primitive roots and factor lists of `cyclic.c` are what the table claims
(`TableEntry`; proved for its first entry). RC5 and 32-bit SPECK in `libcperm/ciphers` are
injections on 32-bit blocks that read 32 bits. Machine words that the source never overflows are
numbers; where a width matters (24-bit words, 16-bit checksums, 32-bit numbers of the IPv4 list)
it is written out. Checksums and the IPv6 loop are on a little-endian machine. Random numbers,
interface identifiers, the success of each attempt to send, the outcome of the outside stop
conditions and of the tests of the IPv6 loop that depend on time are parameters.

## Model

| member | source | states |
|---|---|---|
| Constraint.SetRecurse | HMapc/lib/constraint.c:178-233 | the subtree gives the value to exactly the addresses that match the first len bits of the prefix, keeps every other address, and stays without mergeable leaves |
| Constraint.MergeLeaves | HMapc/lib/constraint.c:225-232 | discarding two equal leaves changes no address's value |
| Constraint.MatchesStep | HMapc/lib/constraint.c:207-220 | testing the top bit and shifting the prefix selects the half of the matching addresses |
| Constraint.Constraint.Set | HMapc/lib/constraint.c:238-244 | afterwards an address has the new value if it matches the prefix and its old value otherwise; the tree is no longer painted |
| Constraint.Constraint.SetAll | HMapc/lib/blocklist.c:309-319 | after any sequence of settings an address has the value of the last one that matches it, or its old value |
| Constraint.LastMatchIs | HMapc/lib/constraint.c:238-244 | some setting matches and no later one does, or none matches |
| Constraint.Constraint.constructor | HMapc/lib/constraint.c:126-137 | a new constraint gives every address the default value |
| ConstraintTree.MatchesIs | HMapc/lib/constraint.c:207-220 | a prefix matches exactly the addresses that have its first len bits |
| Constraint.LookupIpvx | HMapc/lib/constraint.c:248-272 | the loop over masks finds the value of the address |
| Constraint.Constraint.LookupValue | HMapc/lib/constraint.c:276-286 | the public lookup is the value of the address |
| ConstraintTree.UniformIsLeaf | HMapc/lib/constraint.c:225-232 | a tree without mergeable leaves whose addresses all have one value is a single leaf |
| ConstraintTree.ShapeUnique | HMapc/lib/constraint.c:178-233 | two such trees that give every address the same value are equal |
| Constraint.CountIpvxRecurse | HMapc/lib/constraint.c:289-333 | the recursive count is the count of the tree, with or without the radix blocks, and painting leaves it in every node |
| ConstraintTree.CountIsSize | HMapc/lib/constraint.c:289-333 | the recursive count is the number of addresses that have the value |
| ConstraintTree.FastCount | HMapc/lib/constraint.c:339-348 | what painting counts in the tree plus the radix blocks is the unpainted count |
| ConstraintTree.CachedCount | HMapc/lib/constraint.c:339-348 | root count plus radix length times block size is the count |
| Constraint.Constraint.CountOfValue | HMapc/lib/constraint.c:335-354 | both branches return the number of addresses that have the value |
| ConstraintTree.CountsCover | HMapc/lib/blocklist.c:322-359 | with two values in use their counts add up to the address space |
| Constraint.LookupNode | HMapc/lib/constraint.c:360-388 | the node met by following the bits of a prefix |
| Constraint.CoveredByDescent | HMapc/lib/constraint.c:392-427 | following a block's bits ends in a leaf of the value exactly when the block lies in one |
| Constraint.Constraint.PaintValue | HMapc/lib/constraint.c:392-427 | painting stores the counts and the radix array of the value and changes no address |
| Constraint.Constraint.FillRadix | HMapc/lib/constraint.c:402-415 | the radix array holds the starts of the covered blocks, in order |
| Constraint.LookupIndex | HMapc/lib/constraint.c:430-456 | the descent by counts finds the n-th address the tree counts |
| Constraint.Constraint.LookupIndexForIpvx | HMapc/lib/constraint.c:461-500 | painting on demand, then the i-th painted address; index -1 gives the second radix entry with all offset bits |
| Constraint.Constraint.LookupPainted | HMapc/lib/constraint.c:470-500 | the radix branch and the tree branch together give the i-th painted address |
| ConstraintTree.SelectThenRank | HMapc/lib/constraint.c:430-456 | the n-th counted address is counted and has rank n |
| ConstraintTree.RankThenSelect | HMapc/lib/constraint.c:430-456 | a counted address is found at its rank |
| ConstraintTree.SelectIncreases | HMapc/lib/constraint.c:430-456 | the counted addresses come in ascending order |
| ConstraintTree.RadixIs | HMapc/lib/constraint.c:402-415 | the radix array lists exactly the blocks all of whose addresses have the value |
| ConstraintTree.RadixIncreases | HMapc/lib/constraint.c:402-415 | in ascending order |
| ConstraintTree.NthOfPosition | HMapc/lib/constraint.c:461-500 | rank lookup reaches every address of the painted value |
| ConstraintTree.PositionOfNth | HMapc/lib/constraint.c:461-500 | rank lookup gives only addresses of the painted value, each from one index |
| ConstraintTree.NthIncreases | HMapc/lib/constraint.c:461-500 | rank lookup ascends through those blocks, and again through the other addresses |
| ConstraintTree.RegionOfNth | HMapc/lib/constraint.c:470-500 | the radix branch gives exactly the addresses of those blocks, so that they come first |
| Blocklist.AddOne | HMapc/lib/blocklist.c:110-125 | an entry, extended by port and index bits, sets exactly the targets whose prefix it covers |
| Blocklist.AddAll | HMapc/lib/blocklist.c:309-319 | after a list, the targets some entry covers have its value and the others the old one |
| Blocklist.CoversIsMatch | HMapc/lib/blocklist.c:110-116 | appending port and index bits does not change which prefixes an entry matches |
| Blocklist.CoversIs | HMapc/lib/blocklist.c:110-116 | an entry covers exactly the prefixes that have its first len bits, and none if it is longer than a prefix |
| Blocklist.InitAllowed | HMapc/lib/blocklist.c:425-446 | with an allow list only its prefixes are allowed, without one all are |
| Blocklist.AddBlocked | HMapc/lib/blocklist.c:448-463 | block entries and, last, the zero prefix are disallowed, whatever was set before |
| Blocklist.BlocklistInit | HMapc/lib/blocklist.c:366-500 | the allowed prefixes are exactly those the two lists mean; the zero prefix is never one; success exactly when one is allowed |
| Blocklist.Blocklist.IsAllowedIpvx | HMapc/lib/blocklist.c:71-80 | the test on one prefix is membership in the allowed set |
| Blocklist.Blocklist.CountAllowedIpPortIndex | HMapc/lib/blocklist.c:322-326 | the number of targets |
| Blocklist.Blocklist.CountAllowedIpPort | HMapc/lib/blocklist.c:328-333 | the shifted count is the number of allowed prefixes times the port slots |
| Blocklist.Blocklist.CountAllowedIp | HMapc/lib/blocklist.c:335-340 | the shifted count is the number of allowed prefixes |
| Blocklist.Blocklist.CountNotAllowedIp | HMapc/lib/blocklist.c:355-359 | with the allowed prefixes it makes up the whole prefix space |
| Blocklist.Book.AllowedTargets | HMapc/lib/blocklist.c:322-340 | the count of allowed targets is the count of allowed prefixes times 2^(port and index bits), exactly |
| Blocklist.Book.DisallowedTargets | HMapc/lib/blocklist.c:342-359 | allowed and disallowed targets make up the whole space |
| Blocklist.Book.Numbering | HMapc/lib/blocklist.c:65-69 | indices below the count correspond one-to-one to the targets with an allowed prefix |
| Blocklist.Blocklist.LookupIndex | HMapc/lib/blocklist.c:65-69 | the target with the given index |
| Cyclic.CoprimeByFactors | HMapc/src/cyclic.c:612-621 | no prime factor of p-1 dividing a candidate above 1 is the same as being coprime with p-1 |
| Cyclic.IsCoprime | HMapc/src/cyclic.c:604-628 | true exactly for candidates above 1 that share no divisor with p-1 |
| Cyclic.NextCandidate | HMapc/src/cyclic.c:655-658 | every rejected candidate brings the search nearer to p-2 |
| Cyclic.FindPrimroot | HMapc/src/cyclic.c:647-663 | from any random start the search ends, at the power of the known root to the first accepted candidate, which is a generator |
| Cyclic.GeneratorsFound | HMapc/src/cyclic.c:647-663 | some random number below a limit leads to a generator exactly when it is the power of the root to an accepted exponent that is below the limit, or that nothing accepted separates from the last number below it |
| Cyclic.AllButTheRoot | HMapc/src/cyclic.c:647-663 | with a limit no smaller than the prime those are all generators but the root in the table |
| Cyclic.Isomorphism | HMapc/src/cyclic.c:636-643 | the remainder of the known root's power, which is a generator exactly for exponents coprime with p-1 |
| Cyclic.CoprimePowerGenerates | HMapc/src/cyclic.c:630-643 | a primitive root to an exponent coprime with p-1 is again one |
| Cyclic.GeneratingPowerCoprime | HMapc/src/cyclic.c:630-643 | and to no other exponent |
| Cyclic.PowEqual | HMapc/src/cyclic.c:630-643 | powers of a generator are equal exactly when the exponents agree modulo p-1 |
| Cyclic.PowOnto | HMapc/src/cyclic.c:630-643 | every number from 1 to p-1 is a power of a generator |
| Cyclic.PowModIsPower | HMapc/src/cyclic.c:636-643 | the modular power is the remainder of the power |
| Cyclic.GetGroup | HMapc/src/cyclic.c:666-677 | the first group of the table whose prime exceeds the size |
| Cyclic.MakeCycle | HMapc/src/cyclic.c:679-700 | the generator found from the first random number, the order p-1, and the second number modulo p as the offset |
| ShardWalk.WalkIsComplete | HMapc/src/shard.c:37-65 | one turn of the cycle meets every valid index exactly once |
| ShardWalk.WalkJoins | HMapc/src/shard.c:102-123 | walks over adjacent exponent ranges join to the walk over their union |
| ShardWalk.WalkNoDuplicates | HMapc/src/shard.c:37-65 | within one period no index comes twice |
| ShardWalk.Ranges | HMapc/src/shard.c:102-128 | for every number of subshards below p-1 the exponent ranges are nonempty, adjacent, cover one period, and have equal sizes but for the last one, which takes the rest |
| ShardWalk.EmitsWanted | HMapc/src/shard.c:218-297 | the targets of all indices, filtered by used slots, are the wanted (prefix, port, index) triples, each once |
| ShardWalk.WantedIs | HMapc/src/shard.c:232-241 | wanted are the allowed prefixes with each slot of the port list and each index, or slot 0 where a field is not used |
| ShardWalk.SplitIs | HMapc/src/shard.c:226-230 | prefix, port slot and index are the quotient and the remainders by the powers of two |
| ShardWalk.ExactByCount | HMapc/src/send.c:345-352 | exactly once, as a count of each target |
| ShardWalk.RunsCount | HMapc/src/shard.c:67-73 | over the first m subshards each target is probed as often as the walk emits it, plus one stray probe for each empty subshard |
| ShardWalk.ScanIsExact | HMapc/src/shard.c:75-297 | all subshards together probe each wanted target exactly once and nothing else, if and only if no subshard is empty or the stray target of an empty one is not probed |
| ShardWalk.ScanIsSafe | HMapc/src/shard.c:75-297 | all subshards together probe only allowed prefixes, if and only if no subshard is empty, or the stray target is not probed, or it is allowed |
| ShardWalk.ProbedBy | HMapc/src/shard.c:67-73 | a target is probed precisely if the walk meets it or it is the stray lookup of an empty subshard |
| ShardWalk.NoneEmpty | HMapc/src/shard.c:102-128 | when targets plus the floor of order by subshards exceed the order, no subshard is empty, whatever the cycle |
| ShardWalk.FewTargets | HMapc/src/shard.c:102-128 | with fewer targets than subshards at least the difference are empty |
| ShardWalk.SplitJoin | HMapc/src/shard.c:226-230 | cutting a numbered target into prefix, port slot and index and joining them is lossless |
| Shard.EndPoints | HMapc/src/shard.c:102-136 | first and last are the generator's powers at the cycle's offset plus the bounds of the subshard's range |
| Shard.SubIndexInjective | HMapc/src/shard.c:97-100 | different threads of different machines run different subshards |
| Shard.QuotasPartition | HMapc/src/shard.c:151-165 | the quotas of all subshards add up to the global maximum, each is at least 1, and they differ by at most 1, the larger ones first |
| Shard.Shard.constructor | HMapc/src/shard.c:75-216 | a new shard has exactly the valid indices of its range ahead, its quotas, and cleared counters |
| Shard.Shard.GetNextElem | HMapc/src/shard.c:23-27 | the next element of the cycle, which is the last one exactly at the end of the range |
| Shard.Shard.Advance | HMapc/src/shard.c:46-61 | the loop skips invalid elements and finds the next index of the walk, or the end |
| Shard.Shard.GetNextIpvxPortIndex | HMapc/src/shard.c:37-65 | the target of the next index, or the end marker for ever |
| Shard.Shard.RollToValid | HMapc/src/shard.c:67-73 | rolling loses no index of the range |
| Shard.Shard.GetCurrentIpPrefixPortIndex | HMapc/src/shard.c:218-257 | the first target of the run, the stray one of an empty shard included, or prefix 0 |
| Shard.Shard.GetNextIpPrefixPortIndex | HMapc/src/shard.c:259-297 | the next accepted target of the run, or prefix 0 when there is none |
| Shard.NextUnfolds | HMapc/lib/blocklist.c:458-463 | no target of the walk has prefix 0, so that the end marker is unambiguous |
| Send.SendHost | HMapc/src/send.c:354-485 | the packets made carry the destinations of the host's rounds, in order, up to the first before which an outside reason or the quota stops the sender, and all of them if none does |
| Send.RunPacketAt | HMapc/src/send.c:337-504 | host by host and round by round, each packet carries the host's prefix with the identifiers up to its round, and the host's port and index |
| Send.PrefixKept | HMapc/src/send.c:355-360 | identifiers of the suffix's length never change the prefix |
| Numbers.Bitwise | HMapc/src/send.c:358-360 | and, or and exclusive or work bit by bit |
| Send.RoundIsOwn | HMapc/src/send.c:355-360 | a round probes the prefix with its own identifier if and only if the bits of all earlier identifiers are set in that address |
| Send.PileUpExample | HMapc/src/send.c:355-360 | with identifiers 1 and 2 the second round does not probe identifier 2 |
| Send.SendPacket | HMapc/src/send.c:439-487 | a packet fails exactly when none of the next retries attempts would succeed; in a dry run nothing is attempted; the counters stay those of the packets so far |
| Send.AttemptsAre | HMapc/src/send.c:461-485 | attempts are made until one succeeds, and a packet that fails has used all of them |
| Send.TallyBalances | HMapc/src/send.c:439-487 | outside a dry run packets minus failed packets are the successful attempts, and there are at most retries attempts a packet |
| Send.SendTarget | HMapc/src/send.c:337-504 | one round finishes the host in hand and takes the next target, or is stopped within the host's packets |
| Send.SendTurn | HMapc/src/send.c:335-504 | a turn ends the loop at the host limit or after the last target, or finishes one host |
| Send.SendLoop | HMapc/src/send.c:335-504 | the loop ends with all packets of its run, or of as many hosts as its limit allows, or at the first packet before which it has to stop |
| Send.SendRun | HMapc/src/send.c:252-518 | the packets made are exactly the first ones of the run's packets under the host limit, up to the first before which the sender has to stop; the finished hosts are the first of the run; the counters are those of a history of the thread machine |
| SendMachine.ThreadKeeps | HMapc/src/send.c:337-490 | at every step packets are hosts times packets per host plus those of the host in hand, and no limit is exceeded |
| SendMachine.HistoryInvariant | HMapc/src/send.c:337-490 | every history of a sender ends in that relation of its counters |
| SendMachine.HistoryOf | HMapc/src/send.c:337-490 | conversely, counters in that relation end some history |
| SendMachine.WorldKeeps | HMapc/src/iterator.c:36-63 | every step of any thread or callback keeps the sums over finished threads |
| SendMachine.ExecutionInvariant | HMapc/src/iterator.c:36-63 | the same for every run in any interleaving |
| SendMachine.Completion | HMapc/src/iterator.c:36-63 | the scan is complete exactly when no thread is left, and then the global counters are the sums of the thread counters |
| SendMachine.Interleaved | HMapc/src/iterator.c:36-63 | any interleaving of sender histories, each with its callback, is a run of the machine |
| SendMachine.AllSendersDone | HMapc/src/iterator.c:36-63 | when every sender has had all its turns, in any order, the scan is complete and the global counters are the sums of what the senders counted |
| SendMachine.ScanWithinLimits | HMapc/src/send.c:337-375 | in every interleaving on every machine, hosts and packets of the whole scan stay within the global limits |
| Iterator.Iterator.ShardComplete | HMapc/src/iterator.c:36-63 | the callback is the callback step of the machine, and adds the thread's blocked, allowed, failed and tried counts to the sums |
| Iterator.Iterator.GetSent | HMapc/src/iterator.c:124-130 | the sum of the packets of all threads |
| Iterator.Iterator.GetScanned | HMapc/src/iterator.c:116-122 | the sum of the hosts of all threads |
| Iterator.InitShards | HMapc/src/iterator.c:98-102 | thread t stands at the start of its own subshard, with its quotas of the target and packet limits |
| Iterator.LimitsAre | HMapc/src/shard.c:151-165 | those quotas are the limits of the thread machine |
| Iterator.IteratorInit | HMapc/src/iterator.c:65-114 | the first group larger than the number of targets, the cycle made from the two random numbers, one fresh shard a thread with its quotas, and cleared counters |
| Scan.SmallestGroupIsEntry | HMapc/src/cyclic.c:24-33 | the first table entry is prime 17 with primitive root 3 and factor 2 |
| Scan.ScanAll | HMapc/src/send.c:252-518 | the senders of all machines and threads, run to their ends, together probe each wanted target exactly once and nothing else, if and only if no subshard is empty or the stray target is not probed; they probe nothing outside the allowed prefixes under the weaker condition that it may be allowed; their host counters add up to the probes |
| Scan.RunThread | HMapc/src/shard.c:75-297 | one thread probes exactly the run of its subshard, and makes all its packets |
| Scan.FewTargetsProbeTwice | HMapc/src/shard.c:218-257 | with fewer targets than subshards and two radix entries a plain scan is not exact, whatever the cycle |
| Scan.InexactExample | HMapc/src/shard.c:218-257 | 4 of 8 addresses on 5 machines of one thread: not exact for any cycle through the first group |
| Scan.CrowdedExample | HMapc/src/shard.c:218-257 | 4 of 8 addresses on 4 machines of one thread: not exact for the cycle made from the random numbers 3 and 0 |
| Scan.TenIsFound | HMapc/src/cyclic.c:647-663 | that cycle's generator 10 is what the search finds from 3 |
| Scan.StrayIsAllowed | HMapc/lib/constraint.c:470-484 | with two radix entries the stray target is an allowed one, so that it is probed twice |
| Scan.StrayOfFew | HMapc/lib/constraint.c:470-484 | with fewer targets than two radix blocks hold the stray target is the last address of the first block |
| Scan.FewTargetsProbeOutside | HMapc/src/shard.c:218-257 | with fewer targets than subshards too, a plain scan probes it although it is not allowed |
| Scan.OutsideExample | HMapc/src/shard.c:218-257 | an IPv4 scan of 10.0.0.0/30 on 5 machines probes 0.0.15.255 |
| Bits.CompWithMask | Yarrp/patricia.cpp:41-52 | true exactly when the first mask bits of the two addresses agree |
| Bits.SameMasked | Yarrp/patricia.cpp:46-48 | two bytes agree under the mask exactly when their first bits agree |
| Bits.BitTest | Yarrp/patricia.cpp:691-698 | testing with the mask 0x80 >> j reads bit j from the top |
| Bits.FirstDifference | Yarrp/patricia.cpp:691-698 | the search in a byte always finds a bit, the first one that differs |
| Bits.DifferBit | Yarrp/patricia.cpp:681-702 | the number of leading bits the two addresses share, up to the given length |
| Patricia.Tree.constructor | Yarrp/patricia.cpp:323-334 | an empty trie |
| Patricia.Tree.Lookup | Yarrp/patricia.cpp:612-823 | the trie invariant is kept, no assert fails, the stored prefixes become the old ones and the new one, and every value and every other node's prefix stays |
| Patricia.Tree.Descend | Yarrp/patricia.cpp:645-675 | the descent ends at a node with a prefix that shares as many bits with the query as any node |
| Patricia.Tree.FindPlace | Yarrp/patricia.cpp:641-718 | the two loops find the highest node that shares the most bits |
| Patricia.Tree.Climb | Yarrp/patricia.cpp:707-718 | the climb stops below the first ancestor shorter than the shared bits |
| Patricia.Tree.InsertFirst | Yarrp/patricia.cpp:625-639 | the first node becomes the head |
| Patricia.Tree.MarkGlue | Yarrp/patricia.cpp:720-735 | a glue node takes the prefix and had no data |
| Patricia.Tree.InsertChild | Yarrp/patricia.cpp:737-761 | the free child place takes the new node |
| Patricia.Tree.FreePlace | Yarrp/patricia.cpp:747-755 | that place is free, as the source asserts |
| Patricia.Tree.InsertParent | Yarrp/patricia.cpp:763-787 | the new node goes between a node and its parent |
| Patricia.Tree.InsertGlue | Yarrp/patricia.cpp:788-822 | a glue node with both children goes between a node and its parent |
| Patricia.Tree.StoredAfter | Yarrp/patricia.cpp:612-823 | exactly one prefix is added |
| Patricia.Tree.Remove | Yarrp/patricia.cpp:826-930 | the trie invariant is kept and exactly the node's prefix is deleted; a node with two children stays as glue |
| Patricia.Tree.RemoveOuter | Yarrp/patricia.cpp:851-897 | a leaf goes, and with it its parent if that is glue |
| Patricia.Tree.RemoveSingle | Yarrp/patricia.cpp:903-929 | the only child moves up |
| Patricia.Tree.RemoveInner | Yarrp/patricia.cpp:835-849 | the node turns into glue |
| Patricia.Tree.SearchExact | Yarrp/patricia.cpp:441-508 | a node is found exactly when the prefix is stored, and it is that prefix's node |
| Patricia.Tree.SearchBest2 | Yarrp/patricia.cpp:512-602 | the longest stored prefix of the query (the query itself only when inclusive), or nothing when there is none |
| Patricia.Tree.Collect | Yarrp/patricia.cpp:528-570 | the stack holds every stored prefix of the query and at most maxbits + 1 nodes |
| Patricia.Tree.Pop | Yarrp/patricia.cpp:582-601 | the first match from the top of the stack is the longest |
| BgpTable.PrefixTable.Add | Yarrp/patricia.h:154-167 | the value is set only when the node has none; without removals the table changes only at an absent prefix |
| BgpTable.PrefixTable.RemoveEntry | Yarrp/patricia.cpp:826-930 | exactly the node's entry goes; after removal of a node with two children its old value is still there |
| BgpTable.PrefixTable.Get | Yarrp/patricia.cpp:973-985 | the longest-prefix match, or with the exact flag the value of just that prefix |
| BgpTable.PrefixTable.MatchingPrefix | Yarrp/patricia.cpp:1002-1016 | the longest-prefix match, or -1 |
| BgpTable.PrefixTable.PopulateBlock | Yarrp/patricia.cpp:1091-1113 | every block line is added with value 0 |
| BgpTable.PrefixTable.AddUnlessBlocked | Yarrp/patricia.cpp:1118-1120 | a line whose prefix matches 0 changes nothing |
| BgpTable.PrefixTable.Populate | Yarrp/patricia.cpp:1099-1125 | all lines in order, with that guard |
| BgpTable.SetUp | Yarrp/yarrp.cpp:256-283 | the block list first, then the announcements or the default route |
| BgpTable.ShouldProbe | Yarrp/yarrp.cpp:91-106 | a probe goes out exactly to an address with a nonzero match |
| BgpTable.BlockedStaysBlocked | Yarrp/patricia.cpp:1099-1125 | after any block list and any announcements an address in a block matches 0 |
| BgpTable.UnblockedUnaffected | Yarrp/patricia.cpp:1099-1125 | an address in no block matches what it would match without the block list |
| BgpTable.ProbedExactly | Yarrp/yarrp.cpp:91-106 | an address is probed if and only if it is in no block, announced, and not set to 0 by a line with AS number 0 that is longer than all lines before it |
| BgpTable.ZeroLineBlocks | Yarrp/patricia.cpp:1099-1125 | a prefix first announced with AS number 0 is not probed, whatever else is announced |
| BgpTable.AfterLines | Yarrp/patricia.cpp:1099-1125 | after any lines an address matches 0 once such a line has come, and otherwise its longest stored prefix is as long as any line's |
| BgpTable.FirstLineCounts | Yarrp/patricia.cpp:1099-1125 | a prefix gets the AS number of its first line, or is never stored if it matched 0 by then |
| BgpTable.DefaultRoute | Yarrp/yarrp.cpp:256-283 | without announcements the default route has the value 1, unless everything is blocked |
| BgpTable.LongestIs | Yarrp/patricia.cpp:512-602 | the match is the value of the stored prefix of the query that no other one exceeds |
| Cperm.Cycle.Next | Yarrp/libcperm/cycle.c:49-65 | every call before exhaustion ends and gives the next output, every later one gives the end code and changes nothing |
| Cperm.Advance | Yarrp/libcperm/cycle.c:57-60 | the do-while loop ends at the next block whose image is in the range |
| Cperm.OneTurn | Yarrp/libcperm/cycle.c:49-65 | one turn through the blocks accepts every number of the range once |
| Cperm.WalkPermutes | Yarrp/libcperm/cycle.c:49-65 | the outputs are a permutation of the range exactly when the range is within the cipher's blocks |
| Cperm.WalkInOrder | Yarrp/libcperm/cycle.c:49-65 | the outputs are the images of ascending blocks |
| Cperm.WalkWraps | Yarrp/libcperm/cycle.c:49-65 | beyond the blocks the walk gives every block and then the first one again |
| Cperm.PrefixVector.constructor | Yarrp/libcperm/prefix.c:38-64 | the vector is the sorted list of all images |
| Cperm.RearrangedPermutes | Yarrp/libcperm/prefix.c:52-57 | however the vector is sorted, its plaintexts are a permutation of the range |
| Cperm.SortUnique | Yarrp/libcperm/prefix.c:30-57 | with different images the sorted vector is unique, so that the choice of sort does not matter |
| Cperm.SortInPlace | Yarrp/libcperm/prefix.c:57 | the vector is sorted in place and keeps its elements |
| Cperm.PrefixVector.Get | Yarrp/libcperm/prefix.c:66-76 | position i gives the i-th output, a position past the range the range error |
| Cperm.PrefixVector.Next | Yarrp/libcperm/prefix.c:78-88 | the outputs in order, then the end code |
| Cperm.Permutation.constructor | Yarrp/libcperm/cperm.c:52-103 | a permutation in the selected mode, at its start |
| Cperm.Permutation.Next | Yarrp/libcperm/cperm.c:130-134 | the next output in either mode |
| Cperm.Permutation.Permutes | Yarrp/libcperm/cperm.c:52-103 | the outputs are a permutation: always in prefix mode, in cycle mode exactly up to the block count |
| IpList.IntLog | Yarrp/util.cpp:112-116 | the number of the highest bit set |
| IpList.InBounds | Yarrp/iplist.cpp:211-227 | the numbers below m give indices in bounds exactly when m is at most targets times the power of two |
| IpList.SplitIs | Yarrp/iplist.cpp:221-226 | index times the power of two plus TTL is the number again |
| IpList.RandomExact | Yarrp/iplist.cpp:283-295 | for a power of two every target gets every TTL exactly once |
| IpList.FoldedExact | Yarrp/iplist.cpp:211-227 | the reduced IPv4 numbers keep that exactly up to 0xffffffff pairs |
| IpList.MaskValue | Yarrp/iplist.cpp:11 | the mask has exactly the TTL bits set |
| IpList.RandomList.constructor | Yarrp/iplist.cpp:6-18 | the TTL bits and mask of the power of two below or at the largest TTL |
| IpList.RandomList.Seed | Yarrp/iplist.cpp:36-61 | the permutation of all pairs at its start, in the mode that the size thresholds of the two lists choose |
| IpList.RandomList.NextAddressRand | Yarrp/iplist.cpp:211-227 | the target and TTL of the next entry of the plan, a read out of bounds when its index is beyond the targets, or the end; the first call seeds |
| IpList.RandomList.PlanInBounds | Yarrp/iplist.cpp:211-295 | every index of the plan is in bounds if and only if the numbers that occur are at most targets times the power of two |
| IpList.RandomList.PlanIsExact | Yarrp/iplist.cpp:211-295 | the plan has every pair of a target and a TTL once if and only if the largest TTL is a power of two (or 0) and the list is within the limit |
| IpList.RandomList.Run | Yarrp/iplist.cpp:211-295 | a whole run sends the plan, up to a first read out of bounds, with the exact conditions for both |
| IpList.ThreeTtls | Yarrp/iplist.cpp:211-295 | a list of one target and a largest TTL of 3 reads beyond its target |
| IpList.NetworksExact | Yarrp/iplist.cpp:230-252 | the Internet-wide mode probes each 24-bit network with each TTL below the power of two once |
| IpList.TtlTest | Yarrp/iplist.cpp:240-243 | the byte test keeps exactly those TTLs |
| IpList.NetworkList.constructor | Yarrp/iplist.cpp:6-18 | a list with every such pair still to come |
| IpList.NetworkList.NextAddressEntire | Yarrp/iplist.cpp:230-252 | the next pair still to come, with its host byte, or the end |
| IpList.HostIs | Yarrp/iplist.cpp:247-249 | the host byte is the sum of the network's three bytes, in a byte |
| Speck.RoundUndone | Yarrp/entire.cpp:10-13 | RR undoes R on 24-bit words |
| Speck.RoundRedone | Yarrp/entire.cpp:10-13 | R undoes RR on 24-bit words |
| Speck.RotationsAreShifts | Yarrp/entire.cpp:10-11 | or-ing the masked left shift and the right shift puts the two parts of a word in each other's place |
| Speck.RotationAmounts | Yarrp/entire.cpp:10-13 | the four rotations of R and RR are the macros with 8 and 3 |
| Speck.RoundOfX | Yarrp/entire.cpp:12-12 | with a second word and a key of 0 both words become the rotated first one |
| Speck.RoundOfY | Yarrp/entire.cpp:12-12 | a second word that cancels with the key is rotated |
| Speck.RoundCarries | Yarrp/entire.cpp:12-12 | the sum is taken modulo 2^24 |
| Speck.DecryptsEncrypted | Yarrp/entire.cpp:31-39 | for any 24-bit round keys encryption loses nothing |
| Speck.EncryptsDecrypted | Yarrp/entire.cpp:31-39 | and reaches every block |
| Speck.Encrypt | Yarrp/entire.cpp:31-39 | the loop applies all rounds in order |
| Speck.TwoRounds | Yarrp/entire.cpp:36-38 | round keys are used in order |
| Speck.Expand | Yarrp/entire.cpp:15-29 | the round keys of the schedule, each a 24-bit word |
| Speck.UnpackPacked | Yarrp/entire.cpp:73-107 | the six address bytes and the TTL determine the block |
| Speck.PackedIs | Yarrp/entire.cpp:74-118 | where the hexadecimal digits of the two words go |
| Speck.PlainCounter | Yarrp/entire.cpp:70-71 | the low 24 bits of the counter are one word, the high ones the other |
| Speck.PackUnpacked | Yarrp/entire.cpp:73-107 | and every prefix of 2000::/4 with a TTL from 1 to 16 comes from a block |
| Speck.ProbesDiffer | Yarrp/entire.cpp:69-118 | different loop counters give different pairs of a /48 prefix and a TTL |
| Speck.EveryPrefix | Yarrp/entire.cpp:69-118 | every /48 prefix of 2000::/4 comes from a counter that the loop reaches |
| Speck.IsRouted | Yarrp/entire.cpp:75-100 | the chain of tests keeps exactly seven prefixes |
| Speck.RoutedIs | Yarrp/entire.cpp:75-101 | as numbers of sixteen bits these are 0x2001, 0x2003, those that begin with 240, 280, 2a0 or 2c0, and those that begin with 26 |
| Entire.Turn | Yarrp/entire.cpp:69-112 | a counter passes exactly when its prefix is routed and the table has a value for it with the last bytes left from the last address that passed; it then gets its own |
| Entire.TargetIs | Yarrp/entire.cpp:113-118 | the sixteen bytes sent for a prefix |
| Entire.Internet6 | Yarrp/entire.cpp:47-153 | the packets are those of the counters that pass and that chance lets through, in order and all of them up to the count; none is sent twice |
| Entire.CollectedInOrder | Yarrp/entire.cpp:69-135 | packets come in the order of their counters |
| Entire.OnlyIfMet | Yarrp/entire.cpp:47-153 | whatever the table, a blocked address is sent only if a block meets the routed prefixes |
| Entire.BlockedAreProbed | Yarrp/entire.cpp:103-107 | and in a whole run, if chance drops nothing, it is sent whenever one does, for any announcements |
| Entire.BytesMeet | Yarrp/entire.cpp:75-100 | a block of whole bytes that a routed prefix begins with meets them |
| Entire.BlockedExample | Yarrp/entire.cpp:93-96 | blocking 2001::/16 is such a block |
| Checksum.SumOnesFolds | Yarrp/net.cpp:205-219 | the one's-complement sum is the folded plain sum |
| Checksum.InCksum | Yarrp/net.cpp:192-220 | the complement of the one's-complement sum of the words, an odd byte included, for every buffer of up to 65536 bytes |
| Checksum.OddByte | Yarrp/net.cpp:205-213 | an odd last byte counts like one followed by a zero byte |
| Checksum.SumExample | Yarrp/net.cpp:204-219 | the example of RFC 1071, section 3 |
| Checksum.FoldTwice | Yarrp/net.cpp:214-219 | two folding steps are enough and the sum stays in 32 bits |
| Checksum.PCksum | Yarrp/net.cpp:247-284 | the checksum completes pseudo-header and payload to a multiple of 0xffff, and is 0 only when each of them has every bit set |
| Checksum.OverlaySums | Yarrp/net.cpp:227-256 | both pseudo-header layouts sum like the standard ones |
| Checksum.StandardFields | Yarrp/net.cpp:227-256 | the standard pseudo-headers have their fields in place |
| Checksum.ComputeData | Yarrp/net.cpp:290-304 | the data word, never 0, makes up the difference of the checksums modulo 0xffff |
| Checksum.VerifiesSum | Yarrp/net.cpp:192-220 | a packet verifies exactly when its word sum is a positive multiple of 0xffff |
| Checksum.SteeringVerifies | Yarrp/trace4.cpp:129-141 | with that data word any wanted checksum verifies, 0 being sent as 0xffff |
| Checksum.Steer | Yarrp/trace4.cpp:129-141 | the probe verifies with its pseudo-header, and only the two words changed |
| Checksum.SteerIcmp | Yarrp/trace4.cpp:233-245 | the same for ICMP without a pseudo-header |
| Checksum.SteeredBytes | Yarrp/trace6.cpp:205-209 | the steered packet carries the wanted checksum and the data word and keeps all other bytes |
| Tga.HammingDistance | HMapc/lib/tga.c:101-109 | the distance from a pattern to a seed is the number of wildcards after merging them |
| Tga.MergeStrings | HMapc/lib/tga.c:112-123 | the merged string has a wildcard exactly where the two differ |
| Tga.MergedColumns | HMapc/lib/tga.c:126-141 | merging several seeds keeps exactly the columns in which all agree |
| Tga.ClusteredIsSound | HMapc/lib/tga.c:126-141 | every pattern matches its own seed and all seeds merged into it, has at most the threshold of wildcards, and could not take in the next seed |
| Tga.VisitedUnlessMerged | HMapc/lib/tga.c:127-140 | the outer loop passes over exactly the entries merged into a cluster that ends before the list does |
| Tga.IpVector.HierarchicalCluster | HMapc/lib/tga.c:126-141 | for any nonempty list of seeds the loops end, and each entry is its cluster's pattern or its own seed |
| Tga.IpVector.ClusterFrom | HMapc/lib/tga.c:129-139 | one outer turn merges exactly the seeds up to the first one too far away |
| Tga.IpVector.AddIp | HMapc/lib/tga.c:19-28 | the string is appended and the capacity doubles when it is full |
| Tga.Vec2Colon | HMapc/lib/tga.c:144-165 | eight groups of four digits with colons between them |
| Tga.ColonAt | HMapc/lib/tga.c:144-165 | digit j of group g is digit 4g+j, and a colon follows each group but the last |
| Tga.TargetGeneration | HMapc/lib/tga.c:167-191 | every expansion of the pattern is appended in colon form, and the pattern buffer is restored |
| Tga.ExpandedOnce | HMapc/lib/tga.c:167-191 | each instance of a pattern comes exactly once, 16 to the number of wildcards in all |
| Tga.ExpandIncreases | HMapc/lib/tga.c:179-188 | the expansions come in lexicographic order |
| Tga.ExpandIs | HMapc/lib/tga.c:167-191 | a string is expanded exactly when it has the pattern's digits and any digit for each wildcard |
| Tga.DigitIs | HMapc/lib/tga.c:179-184 | the digits run through 0 to 9 and a to f |
| Tga.HexDigits | HMapc/lib/tga.c:179-184 | and those are all the digits an instance may have |
| Tga.TargetsAre | HMapc/src/hmap.c:1101-1119 | a hexadecimal string is among the targets if and only if it matches an entry with a wildcard |
| Tga.CollectSubspaces | HMapc/src/hmap.c:1101-1107 | the loop collects exactly the entries with a wildcard, each once |
| Tga.GenerateTargets | HMapc/src/hmap.c:1111-1126 | the targets of the patterns in bucket order, up to the first pattern that makes them exceed the capacity |
| Tga.LoneSeed | HMapc/src/hmap.c:1103-1106 | a seed alone in its cluster is not expanded; a single seed gives no target |
| Tga.SeedsAreTargets | HMapc/src/hmap.c:1097-1119 | a cluster's pattern with a wildcard is expanded, to at most 4096 targets, and the seeds merged into it are among them |

## Left out

- Sockets, packet capture, files, logging, DNS, option parsing, rate control and all reporting: input and output.
- The text parsing of list lines, addresses and prefixes: entries arrive as numbers or bit strings.
- The table of groups in `cyclic.c` beyond its first entry, and the RC5 and SPECK code in `libcperm/ciphers`: assumptions, stated above.
- `ip_target_file.c`, `subnet_list.cpp` and the sequential list mode: file positions, or easy members only.
- `HashSet_insert`, `HashSet_contains` and `HashSet_resize` of `tga.c`: the hash set is a set of strings, and the order of its buckets is any sequence.
- Memory: allocation failures, reference counts, and freed nodes, which simply leave the model's set of nodes.
- Send.SendHost: does not model target files and the making and printing of packets.
- Shard.Shard.GetCurrentIpPrefixPortIndex: returns the slot of the port list, not the port, and does not model the target-file fields of a shard.
- Shard.Shard.GetNextIpPrefixPortIndex: returns the slot of the port list, not the port.
- Iterator.Iterator.ShardComplete: leaves out the finish time and the first scanned element, which are only reported.
- Iterator.IteratorInit: requires that a group large enough for the targets has more elements than there are subshards, which the source asserts in `shard_init`.
- Blocklist.BlocklistInit: entries longer than the scanned width apply to nothing, as in the source; an unparsable entry, which ends the program, is not an input.
- Cperm.PrefixVector.constructor: sorts by insertion in place of `qsort`; `Cperm.SortUnique` shows that the result is the same when the images differ, and `Cperm.RearrangedPermutes` that ties do not matter for being a permutation.
- IpList.RandomList.constructor: requires a largest TTL of 2 or more for IPv6, because below that the mask is computed by a shift of 32 bits, which C leaves undefined; the IPv4 list does not use its mask then.
- IpList.NetworkList.constructor: requires a largest TTL of 2 or more, because below that the mask is computed by the same undefined shift.
- Checksum.Steer: does not model the other header fields of the probes, nor the next-header value in the pseudo-header of an IPv6 probe with an extension header.
- Entire.Internet6: does not model the statistics and the pacing of the loop; the histogram, the biased draw and the elapsed time are one arbitrary choice for each counter.
- Entire.BlockedAreProbed: leaves open runs in which chance drops packets, because a block may then be met only by dropped ones, and, with announcements, blocks of more than 96 bits, because whether the loop meets one depends on the address that passed before.
- Patricia.Tree.Lookup: addresses of one family in a trie; mixing families in one trie is not modelled.
