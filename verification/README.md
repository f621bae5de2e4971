# Verified algorithms of the vendored daemons

The repository vendors several small C daemons: haveged with its self tests and the NIST test
suite, dnsmasq, rinetd, dnrd and the popen_noshell library. This project models the algorithms in
them that carry the hardest promises and proves those promises in Dafny 4.11. Each module stands
for one of them, takes the form of its C code, and can be read on its own.

| files | what they model |
|---|---|
| `BerlekampMassey.dfy` | the linear complexity loop of the NIST test suite (section 2.10 of NIST SP 800-22 Rev. 1a), up to Massey's theorem: the length found is least |
| `Gf2Rank.dfy` | the binary matrix rank of the suite (section 2.5 of NIST SP 800-22 Rev. 1a), against the dimension of the row space |
| `CollectorRing.dfy` | haveged's ring of collectors and one requester over n + 1 semaphores, as interleaved steps |
| `ProcedureA.dfy` | haveged's AIS-31 procedure A as a state machine fed with buffers of any size |
| `DnsCache*.dfy` | the dnsmasq record cache: hash chains, list of last use, uncommitted chain, lookups that rotate and free while they walk, transactional insert, rehash, runs of all of these; `DnsCacheList.dfy` has the pointers of the list |
| `AddressAllocate.dfy` | the DHCPv4 allocator of dnsmasq |
| `Getopt.dfy` | GNU getopt in its permuting mode, short and long options |
| `Relay.dfy`, `RelaySlots.dfy` | the two-way relay of rinetd with half-closed connections |
| `Matcher.dfy`, `MatcherEscapes.dfy` | the address patterns of rinetd, and which escapes in them are honoured |
| `QueryPool.dfy`, `QueryTimeout.dfy`, `QueryList.dfy` | the query ids and in-flight queries of dnrd, and when one time-out clears them |
| `DnsName.dfy`, `DnsAnswer.dfy`, `DnsMaster.dfy` | names, answers and their readers in dnrd (sections 4.1.1 to 4.1.4 of RFC 1035) |
| `DomainSearch.dfy` | dnrd's choice of servers by domain |
| `CommandSplit.dfy` | the command splitter of popen_noshell |
| `Common.dfy` | types that several models use |

Code that changes arrays and fields is modelled by methods on arrays and classes; each is proved
against a function of its old state, and what the code promises is proved about those functions.
Linked lists are sequences of record ids, except in `QueryList.dfy` and `DnsCacheList.dfy`, where
the pointers are spelled out. Sockets, clocks, memory, random numbers, pings and `select` are
parameters, so every answer of theirs is covered. `dafny verify dfyconfig.toml` checks the whole project.

Large invariants and recursive readings stand under a quantifier with a trigger of its own, opened
by a lemma named after them (`InvMeans`, `LayoutMeans`, ...). This only keeps proofs short: the
predicates mean what they quantify over.

Where code and comment disagree the model follows the code:

- `computeRank` is the rank for square matrices (and empty or single-row ones) only; for every other
  shape a matrix is given on which it is wrong.
- `matchBody` steps past the end of the subject when a pattern asks for a character there before its
  first star.
- `matchBody` takes a backslash behind a star for an ordinary character, and a bar behind a backslash
  still ends the alternative where the comparison fails, although the comment says that a backslash
  escapes the next character; exactly for which alternatives the two readings agree is stated.
- `query_timeout` steps over the query behind each one it removes; exactly when one call clears all
  expired queries is stated by the lengths of their runs.
- `cache_insert` believes that its second scan has freed a record; exactly when it has is stated, and
  a valid cache in which it has not is given.
- `query_add` writes the id of a repeated query in host order and that of a new one in network order.
- `read_record` drops data beyond 252 bytes and does not pass over them.
- `get_objname` writes in front of its buffer for the root name.
- `search_subdomnode` can be misled by length bytes inside a label.
- `GET_OPCODE` masks bit 15 of the flags and leaves out bit 12, so that a status query is answered as a
  standard one.
- Scanning a permuted argv again differs from the first scan if the last option lacked its argument.

## Model

| member | source | states |
|---|---|---|
| `BerlekampMassey.MasseyBound` | haveged/haveged-1.7/nist/packtest.c:1480-1482 | Massey's theorem: a register of length L that produces n bits and errs on the next forces every register for all n + 1 bits to length n + 1 - L at least |
| `BerlekampMassey.ParityCorrected` | haveged/haveged-1.7/nist/packtest.c:1475-1479 | adding the shifted old polynomial xors its discrepancy, shifted, into that of the current one |
| `BerlekampMassey.CorrectionConnects` | haveged/haveged-1.7/nist/packtest.c:1468-1479 | the corrected polynomial produces all n + 1 bits at the new length |
| `BerlekampMassey.CorrectionShortest` | haveged/haveged-1.7/nist/packtest.c:1480-1483 | after a discrepancy no register shorter than max(L, n + 1 - L) produces n + 1 bits |
| `BerlekampMassey.HeldStep` | haveged/haveged-1.7/nist/packtest.c:1455-1489 | one bit, with or without a discrepancy: the register stays one that produces the bits read, of least length; the shifted cells stay inside the work array |
| `BerlekampMassey.InvFinal` | haveged/haveged-1.7/nist/packtest.c:1455-1489 | when the block is read, L is the least length of any register that produces it |
| `BerlekampMassey.ReservedBytes` | haveged/haveged-1.7/nist/packtest.c:90-95 | the allocator leaves room for one cell beyond those asked for, which the shift can reach |
| `BerlekampMassey.Discrepancy` | haveged/haveged-1.7/nist/packtest.c:1457-1467 | d is the discrepancy of the connection polynomial at the current bit |
| `BerlekampMassey.Correct` | haveged/haveged-1.7/nist/packtest.c:1470-1479 | C becomes the sum of C and B shifted, T the old C |
| `BerlekampMassey.Update` | haveged/haveged-1.7/nist/packtest.c:1468-1487 | polynomials, L and m after a discrepancy |
| `BerlekampMassey.Pass` | haveged/haveged-1.7/nist/packtest.c:1455-1489 | a pass of the loop keeps the invariant on the arrays |
| `BerlekampMassey.BlockComplexity` | haveged/haveged-1.7/nist/packtest.c:1440-1489 | for every bit block of any length the result is its linear complexity |
| `BerlekampMassey.LinearComplexity` | haveged/haveged-1.7/nist/packtest.c:1418-1489 | the length found for every block of the sample is that block's linear complexity |
| `Gf2Rank.SpanSwap` | haveged/haveged-1.7/nist/matrix.c:96-107 | swapping rows keeps the row space, the least subspace that holds the rows |
| `Gf2Rank.SpanAdd` | haveged/haveged-1.7/nist/matrix.c:55-56 | adding one row to another keeps the row space |
| `Gf2Rank.SpanEliminate` | haveged/haveged-1.7/nist/matrix.c:46-68 | eliminating a column above or below a row keeps the row space |
| `Gf2Rank.DimensionIsUnique` | haveged/haveged-1.7/nist/matrix.c:109-127 | the rank is the length of every basis of the row space |
| `Gf2Rank.BackwardSwapStep` | haveged/haveged-1.7/nist/matrix.c:36-38 | when the backward pass has to swap, the row it replaces is already zero |
| `Gf2Rank.FinishedCount` | haveged/haveged-1.7/nist/matrix.c:109-127 | rows with a one on the diagonal and nothing to its right, or zero, are a basis but for the zero ones |
| `Gf2Rank.CountIsRank` | haveged/haveged-1.7/nist/matrix.c:109-127 | the count of non-zero rows is the rank for every matrix of a good shape, and wrong for some matrix of every other |
| `Gf2Rank.BadMatrixRank` | haveged/haveged-1.7/nist/matrix.c:115-125 | for every shape but square, empty and single-row ones, a matrix whose rank is not the count |
| `Gf2Rank.SwapRows` | haveged/haveged-1.7/nist/matrix.c:96-107 | two rows exchanged, the others unchanged |
| `Gf2Rank.EliminateBelow` | haveged/haveged-1.7/nist/matrix.c:53-57 | the partial-row additions below the diagonal are full row additions |
| `Gf2Rank.EliminateAbove` | haveged/haveged-1.7/nist/matrix.c:59-63 | row i added to every row above with a one in column i |
| `Gf2Rank.FindBelowAndSwap` | haveged/haveged-1.7/nist/matrix.c:77-82 | the first row below with a one in the column is swapped in, or there is none |
| `Gf2Rank.FindAboveAndSwap` | haveged/haveged-1.7/nist/matrix.c:84-89 | the nearest row above with a one in the column is swapped in, or there is none |
| `Gf2Rank.DetermineRank` | haveged/haveged-1.7/nist/matrix.c:109-127 | the start value less the number of zero rows |
| `Gf2Rank.ForwardPass` | haveged/haveged-1.7/nist/matrix.c:23-30 | the row space is kept and a square matrix becomes upper triangular up to missing pivots |
| `Gf2Rank.BackwardPass` | haveged/haveged-1.7/nist/matrix.c:33-40 | the row space is kept and every non-zero row of a square matrix ends with its diagonal one and zeros to the right |
| `Gf2Rank.ComputeRank` | haveged/haveged-1.7/nist/matrix.c:15-44 | the row space is kept; the result is the dimension of the original row space exactly for the shapes square, empty and single-row |
| `CollectorRing.StepToken` | haveged/haveged-1.7/src/havege.c:425-463 | no step of the requester or a collector makes or loses a token |
| `CollectorRing.StepInv` | haveged/haveged-1.7/src/havege.c:416-463 | every step of every process keeps the ring invariant |
| `CollectorRing.RunInv` | haveged/haveged-1.7/src/havege.c:175-199 | the invariant holds in every state of every interleaving |
| `CollectorRing.OneToken` | haveged/haveged-1.7/src/havege.c:425-463 | semaphore values and holders sum to one, so at most one process touches count, out and last |
| `CollectorRing.RequestAnswered` | haveged/haveged-1.7/src/havege.c:180-190 | when a request is answered each of its cells was stored once, in order, and no word was ever delivered twice |
| `CollectorRing.NoRefillWhileHolding` | haveged/haveged-1.7/src/havegecollect.c:239-270 | no collector refills while it holds the token |
| `CollectorRing.StepProgress` | haveged/haveged-1.7/src/havege.c:439-462 | every step of a request lowers a measure on words to come and collectors still to refill |
| `CollectorRing.NoDeadlock` | haveged/haveged-1.7/src/havege.c:425-463 | until a request is answered some process can move |
| `CollectorRing.RequestCompletes` | haveged/haveged-1.7/src/havege.c:416-463 | in every infinite run, fair or not, a request is answered |
| `DnsCache.DroppedInv` | dnsmasq/dnsmasq-git/dnsmasq-2.65-release-branch-8f66986/src/cache.c:175-226 | unlinking an entry and freeing a pool record keeps the cache invariant |
| `DnsCache.MovedInv` | dnsmasq/dnsmasq-git/dnsmasq-2.65-release-branch-8f66986/src/cache.c:541-547 | moving an entry up past entries of its own kind keeps every chain ordered reverse, mortal, immortal |
| `DnsCache.InsertChain` | dnsmasq/dnsmasq-git/dnsmasq-2.65-release-branch-8f66986/src/cache.c:153-173 | hashing a record in keeps its chain ordered although the walk skips by flags |
| `DnsCache.CommittedInv` | dnsmasq/dnsmasq-git/dnsmasq-2.65-release-branch-8f66986/src/cache.c:485-498 | committing a pending record keeps the invariant |
| `DnsCache.RecoveredInv` | dnsmasq/dnsmasq-git/dnsmasq-2.65-release-branch-8f66986/src/cache.c:356-361 | recovering a record of an aborted insert keeps the invariant |
| `DnsCache.TakenInv` | dnsmasq/dnsmasq-git/dnsmasq-2.65-release-branch-8f66986/src/cache.c:394-475 | taking the free record at the end of the list keeps the invariant |
| `DnsCache.NotHashed` | dnsmasq/dnsmasq-git/dnsmasq-2.65-release-branch-8f66986/src/cache.c:366-477 | an uncommitted record is in no hash chain, so no lookup finds it |
| `DnsCacheWalk.OrderIsRotation` | dnsmasq/dnsmasq-git/dnsmasq-2.65-release-branch-8f66986/src/cache.c:515-572 | the walk leaves the kept entries rotated: the first hit last among the hits of its kind, the others one place up |
| `DnsCacheSearch.AnswersExact` | dnsmasq/dnsmasq-git/dnsmasq-2.65-release-branch-8f66986/src/cache.c:502-584 | an entry anywhere in the table is an answer exactly if it is a forward record of the name and protocol that is unexpired and not outdated when the walk reaches it; each once |
| `DnsCacheSearch.LinksFollow` | dnsmasq/dnsmasq-git/dnsmasq-2.65-release-branch-8f66986/src/cache.c:574-575 | following the next fields from the first answer visits the answers in order, across the seam into the list |
| `DnsCacheSearch.IterationAll` | dnsmasq/dnsmasq-git/dnsmasq-2.65-release-branch-8f66986/src/cache.c:502-584 | the first call returns the first answer, each continued call the next, and the call after the last none |
| `DnsCacheAddr.AddrAnswersExact` | dnsmasq/dnsmasq-git/dnsmasq-2.65-release-branch-8f66986/src/cache.c:586-649 | although every chain is left at its first entry that is not reverse, the answers are exactly the unexpired reverse records of the address anywhere in the table, each once |
| `DnsCacheAddr.AddrIterationAll` | dnsmasq/dnsmasq-git/dnsmasq-2.65-release-branch-8f66986/src/cache.c:586-649 | the calls by address return those answers in order and then none |
| `DnsCacheScan.ScannedClean` | dnsmasq/dnsmasq-git/dnsmasq-2.65-release-branch-8f66986/src/cache.c:281-305 | after a scan for a name its chain holds no expired record and none that clashes with the insert; the rest is unchanged and in order |
| `DnsCacheScan.EarlyExit` | dnsmasq/dnsmasq-git/dnsmasq-2.65-release-branch-8f66986/src/cache.c:314-337 | a scan that stops at the first immortal entry that is not reverse leaves what a full scan leaves |
| `DnsCacheScan.EvictionExactly` | dnsmasq/dnsmasq-git/dnsmasq-2.65-release-branch-8f66986/src/cache.c:408-422 | the belief that there is free space after the second scan is right exactly if that scan takes a pool record out of the chains; said of the chains before the scan |
| `DnsCacheScan.OldestSurvives` | dnsmasq/dnsmasq-git/dnsmasq-2.65-release-branch-8f66986/src/cache.c:264-336 | the oldest record survives the scan meant to evict it exactly if the scan does not look for its type and it is neither expired nor outdated, or a record that may not be removed comes before it in its chain |
| `DnsCacheScan.StuckExample` | dnsmasq/dnsmasq-git/dnsmasq-2.65-release-branch-8f66986/src/cache.c:408-422 | a lease of the name of the only record keeps that from being evicted: the insert fails in a valid cache |
| `DnsCacheScan.CommitHashes` | dnsmasq/dnsmasq-git/dnsmasq-2.65-release-branch-8f66986/src/cache.c:480-500 | a commit makes every pending record findable but, perhaps, an alias |
| `DnsCacheScan.CommitEntries` | dnsmasq/dnsmasq-git/dnsmasq-2.65-release-branch-8f66986/src/cache.c:479-500 | a commit makes pending records findable and no others, and removes none |
| `DnsCacheScan.RehashedInv` | dnsmasq/dnsmasq-git/dnsmasq-2.65-release-branch-8f66986/src/cache.c:102-134 | moving all entries to a larger table keeps the invariant and the set of entries |
| `DnsCacheOps.Cache.constructor` | dnsmasq/dnsmasq-git/dnsmasq-2.65-release-branch-8f66986/src/cache.c:82-95 | n free records in the list and an empty table whose size is the first power of two from 64 on that is not below n / 10 |
| `DnsCacheList.List.Unlink` | dnsmasq/dnsmasq-git/dnsmasq-2.65-release-branch-8f66986/src/cache.c:215-226 | on prev, next, head and tail: the record is out and the others stay linked both ways in their order |
| `DnsCacheList.List.Link` | dnsmasq/dnsmasq-git/dnsmasq-2.65-release-branch-8f66986/src/cache.c:203-212 | the record is linked in at the head, also of an empty list |
| `DnsCacheList.List.Append` | dnsmasq/dnsmasq-git/dnsmasq-2.65-release-branch-8f66986/src/cache.c:181-187 | the record is linked in at the tail, also of an empty list |
| `DnsCacheList.List.Promote` | dnsmasq/dnsmasq-git/dnsmasq-2.65-release-branch-8f66986/src/cache.c:532-533 | the record is the youngest and the others keep their order |
| `DnsCacheList.List.Drop` | dnsmasq/dnsmasq-git/dnsmasq-2.65-release-branch-8f66986/src/cache.c:286-291 | the pointers after dropping an entry of a chain are the list of the cache state after it |
| `DnsCacheList.List.Take` | dnsmasq/dnsmasq-git/dnsmasq-2.65-release-branch-8f66986/src/cache.c:453-453 | the pointers after an insert takes the record at the tail are the list of the state after it |
| `DnsCacheList.List.Commit` | dnsmasq/dnsmasq-git/dnsmasq-2.65-release-branch-8f66986/src/cache.c:493-494 | the pointers after a commit links a pending record are the list of the state after it |
| `DnsCacheList.List.Recover` | dnsmasq/dnsmasq-git/dnsmasq-2.65-release-branch-8f66986/src/cache.c:356-361 | the pointers after a pending record is freed are the list of the state after it |
| `DnsCacheOps.Cache.Search` | dnsmasq/dnsmasq-git/dnsmasq-2.65-release-branch-8f66986/src/cache.c:510-575 | the whole effect of the first walk on chains, list, records and next fields |
| `DnsCacheOps.Cache.FindFirst` | dnsmasq/dnsmasq-git/dnsmasq-2.65-release-branch-8f66986/src/cache.c:502-584 | the first answer, and a state from which iteration gives the others |
| `DnsCacheOps.Cache.Lookup` | dnsmasq/dnsmasq-git/dnsmasq-2.65-release-branch-8f66986/src/cache.c:502-584 | a caller that iterates to the end gets exactly the answers, and the invariant holds again |
| `DnsCacheOps.Cache.FindByAddr` | dnsmasq/dnsmasq-git/dnsmasq-2.65-release-branch-8f66986/src/cache.c:586-649 | the first answer by address, and a state from which iteration gives the others |
| `DnsCacheOps.Cache.LookupAddr` | dnsmasq/dnsmasq-git/dnsmasq-2.65-release-branch-8f66986/src/cache.c:586-649 | a caller that iterates by address gets exactly the answers |
| `DnsCacheOps.Cache.ScanName` | dnsmasq/dnsmasq-git/dnsmasq-2.65-release-branch-8f66986/src/cache.c:281-305 | what a scan for a name removes, and when a hosts or DHCP record of the name stops it |
| `DnsCacheOps.Cache.ScanAll` | dnsmasq/dnsmasq-git/dnsmasq-2.65-release-branch-8f66986/src/cache.c:306-338 | what a scan of the whole table removes |
| `DnsCacheOps.Cache.ScanFree` | dnsmasq/dnsmasq-git/dnsmasq-2.65-release-branch-8f66986/src/cache.c:264-341 | either scan leaves every entry that stays unchanged |
| `DnsCacheOps.Cache.StartInsert` | dnsmasq/dnsmasq-git/dnsmasq-2.65-release-branch-8f66986/src/cache.c:351-364 | records of an aborted insert are back in the list and out of use |
| `DnsCacheOps.Cache.HashRecord` | dnsmasq/dnsmasq-git/dnsmasq-2.65-release-branch-8f66986/src/cache.c:153-173 | the record goes to its place in the chain of its name |
| `DnsCacheOps.Cache.MakeRoom` | dnsmasq/dnsmasq-git/dnsmasq-2.65-release-branch-8f66986/src/cache.c:394-430 | the end of the list is free, or the list is empty, or the eviction was held up; the loop ends |
| `DnsCacheOps.Cache.Insert` | dnsmasq/dnsmasq-git/dnsmasq-2.65-release-branch-8f66986/src/cache.c:366-477 | success makes the last record the first pending one with the given contents; each failure has its cause; entries left in the chains are unchanged |
| `DnsCacheOps.Cache.EndInsert` | dnsmasq/dnsmasq-git/dnsmasq-2.65-release-branch-8f66986/src/cache.c:480-500 | commits all pending records, dropping aliases without target, unless an insert failed |
| `DnsCacheOps.Cache.ClearTarget` | dnsmasq/dnsmasq-git/dnsmasq-2.65-release-branch-8f66986/src/rfc1035.c:943-943 | an uncommitted alias without target is outdated, so that a commit drops it |
| `DnsCacheOps.Cache.SetTarget` | dnsmasq/dnsmasq-git/dnsmasq-2.65-release-branch-8f66986/src/rfc1035.c:944-948 | an uncommitted alias is pointed at a record by id and uid, and the invariant is kept |
| `DnsCacheOps.Cache.AddGiven` | dnsmasq/dnsmasq-git/dnsmasq-2.65-release-branch-8f66986/src/cache.c:718-720 | a record of a hosts file hangs in the chain of its name only, and the invariant is kept |
| `DnsCacheOps.Cache.Rehash` | dnsmasq/dnsmasq-git/dnsmasq-2.65-release-branch-8f66986/src/cache.c:102-134 | a larger table with the same entries, or the very same table |
| `DnsCacheRun.Run` | dnsmasq/dnsmasq-git/dnsmasq-2.65-release-branch-8f66986/src/cache.c:351-649 | for any sequence of lookups, inserts, commits, hosts records and growth on a valid cache: in every state list and uncommitted chain share out the fixed pool, used records precede free ones, uncommitted records hang in no chain; and a transaction is committed as a whole or, if an insert failed or no commit came, leaves nothing behind |
| `DnsCacheRun.AbortedNeverFound` | dnsmasq/dnsmasq-git/dnsmasq-2.65-release-branch-8f66986/src/cache.c:343-364 | a pending record for which, up to the next start, no commit is called or only commits after a failed insert, is findable in no state in between and free after that start |
| `DnsCacheRun.FailedLeavesNothing` | dnsmasq/dnsmasq-git/dnsmasq-2.65-release-branch-8f66986/src/cache.c:351-500 | if one insert of a transaction fails before its end, no record that any of its inserts took is ever findable, with or without a call to commit, and the next start frees them all |
| `DnsCacheRun.UnfindableMeans` | dnsmasq/dnsmasq-git/dnsmasq-2.65-release-branch-8f66986/src/cache.c:502-649 | a record in no chain is the answer to no lookup by name or address |
| `Getopt.FindLong` | rinetd/getopt.c:467-498 | the first exact match, else the only option the word abbreviates, else ambiguous or unknown |
| `Getopt.Reverse` | rinetd/getopt.c:250-268 | one of the three swapping loops reverses its range and nothing else |
| `Getopt.ThreeReversals` | rinetd/getopt.c:242-269 | reversing two neighbouring ranges as one and then each again exchanges them |
| `Getopt.Scanner.Exchange` | rinetd/getopt.c:242-269 | the skipped non-options and the options behind them change places, each in order |
| `Getopt.Scanner.Advance` | rinetd/getopt.c:371-393 | options found since move in front of the non-options, and further non-options are passed |
| `Getopt.Scanner.EndOfOptions` | rinetd/getopt.c:400-411 | the element -- is taken and everything behind it passed |
| `Getopt.Scanner.DecodeShort` | rinetd/getopt.c:581-658 | one option character with its argument, in the same element or the next |
| `Getopt.Scanner.DecodeLong` | rinetd/getopt.c:500-551 | a long option found in the table, with its argument |
| `Getopt.Scanner.Decode` | rinetd/getopt.c:448-658 | the next event of the current element |
| `Getopt.Scanner.Next` | rinetd/getopt.c:327-658 | one call returns the next event of a scan of the original argv that moves nothing; EOF comes exactly when that scan has none left |
| `Getopt.Scanner.All` | rinetd/getopt.c:242-658 | calling until EOF gives the events of the plain scan of the original argv; argv ends as program name, consumed elements, non-options, each in original order; optind is the first non-option |
| `Getopt.ScanWeaves` | rinetd/getopt.c:276-289 | every element is either consumed or passed, both in original order |
| `Getopt.PermutedAgain` | rinetd/getopt.c:276-289 | scanning the permuted argv again gives the same events and order exactly unless the last option lacked its argument and there are non-options |
| `Getopt.MissingExample` | rinetd/getopt.c:631-652 | an argv whose last option lacks its argument |
| `Getopt.PermutedExample` | rinetd/getopt.c:631-652 | the second scan of that argv, once permuted, takes the first non-option for the argument |
| `Relay.RemoteReadOk` | rinetd/rinetd.c:839-864 | reading from the remote side keeps conservation, bounds and close bookkeeping |
| `Relay.RemoteWriteOk` | rinetd/rinetd.c:866-895 | writing to the remote side keeps them, and closes it only when all was delivered |
| `Relay.PassOk` | rinetd/rinetd.c:811-836 | a pass keeps the invariant and frees the slot exactly when both sockets are closed |
| `Relay.RunGoesOn` | rinetd/rinetd.c:758-837 | over a run nothing received or delivered is taken back, and a closed socket sees no more bytes |
| `Relay.RelayedFaithfully` | rinetd/rinetd.c:758-1003 | in every state of every run received = delivered ++ buffer[WPos..RPos] within the buffer; a slot is reusable exactly when each socket was closed once; a close by the relay comes after everything from the other side was delivered |
| `Relay.RemoteDrains` | rinetd/rinetd.c:758-895 | once the local side is gone the connection ends within one pass more than the bytes held, if the remote side takes one in each |
| `Relay.LocalDrains` | rinetd/rinetd.c:758-950 | the same once the remote side is gone |
| `Relay.NeverForgotten` | rinetd/rinetd.c:770-802 | a live connection always has a socket in the select sets that can move it on |
| `RelaySlots.Slot.constructor` | rinetd/rinetd.c:1155-1166 | empty buffers, open sockets and zero counters |
| `RelaySlots.Slot.HandleRemoteRead` | rinetd/rinetd.c:839-864 | the slot after a read from the remote side, in the buffer and its positions |
| `RelaySlots.Slot.HandleLocalRead` | rinetd/rinetd.c:897-920 | the slot after a read from the local side |
| `RelaySlots.Slot.HandleRemoteWrite` | rinetd/rinetd.c:866-895 | the slot after a write to the remote side |
| `RelaySlots.Slot.HandleLocalWrite` | rinetd/rinetd.c:922-950 | the slot after a write to the local side |
| `RelaySlots.Slot.HandleCloseFromLocal` | rinetd/rinetd.c:952-976 | the slot after the local side closed |
| `RelaySlots.Slot.HandleCloseFromRemote` | rinetd/rinetd.c:978-1003 | the slot after the remote side closed |
| `RelaySlots.Slot.Interest` | rinetd/rinetd.c:770-802 | which sockets the slot puts into the select sets |
| `RelaySlots.Slot.Serve` | rinetd/rinetd.c:811-836 | what a pass does with one slot |
| `RelaySlots.SelectPass` | rinetd/rinetd.c:758-837 | a pass treats every slot alone |
| `Matcher.FirstHitIsEnough` | rinetd/match.c:84-131 | after a star the first place of the next word is as good as any |
| `Matcher.Search` | rinetd/match.c:107-131 | the first place of the word, at the end of the subject if the word ends the alternative, or none |
| `Matcher.Star` | rinetd/match.c:84-132 | a star and its word decide the alternative or hand on an equivalent rest |
| `Matcher.NextPattern` | rinetd/match.c:150-161 | the beginning of the next alternative |
| `Matcher.Literal` | rinetd/match.c:64-77 | the character after a backslash stands for itself: the alternative goes on, is decided, or is left for the next one |
| `Matcher.MatchBody` | rinetd/match.c:17-163 | for every pattern and subject it ends with the answer of the alternatives tried in turn, or overruns; for a subject without a bar the first alternative that matches or overruns decides |
| `Matcher.AnswerJudge` | rinetd/match.c:60-162 | without bars in the subject, or in the pattern, a trial never leaves its alternative |
| `Matcher.JudgeMeans` | rinetd/match.c:60-162 | the answer is whether some alternative matches under the declarative meaning of * and ?, exactly when no alternative overruns the subject before one matches |
| `Matcher.OverrunExample` | rinetd/match.c:133-136 | a pattern ? and an empty subject: the code steps past its end |
| `MatcherEscapes.ReadingsAgree` | rinetd/match.c:34-35 | code and comment read an alternative alike, for every subject without a bar, if and only if no backslash of it stands before a bar or behind its first star |
| `MatcherEscapes.AnswerIntended` | rinetd/match.c:17-163 | for a pattern with no other backslashes the answer is what the comment says, exactly unless it overruns |
| `MatcherEscapes.AnswerEscapes` | rinetd/match.c:17-163 | for a pattern without bars: code and comment accept the same subjects without bars if and only if no backslash stands behind the first star, and the same subjects altogether if and only if no question mark does, either |
| `MatcherEscapes.EscapeExamples` | rinetd/match.c:78-106 | two patterns and subjects on which code and comment differ |
| `QueryPool.PartitionMeans` | dnrd-2.20.3/src/qid.c:42-59 | no two queries share an id, none in flight is free, and every id is one or the other |
| `QueryPool.EnteredInv` | dnrd-2.20.3/src/query.c:173-193 | a new query keeps the partition of ids and the client ids distinct |
| `QueryPool.RemovedInv` | dnrd-2.20.3/src/query.c:120-132 | ending a query keeps them |
| `QueryPool.TimedOutKeeps` | dnrd-2.20.3/src/query.c:216-229 | from any cursor, unexpired queries stay in order and at most the expired ones passed and half of the others stay |
| `QueryPool.TimeoutHalves` | dnrd-2.20.3/src/query.c:216-229 | a time-out never removes an unexpired query and removes at least half of the expired ones, so at least one if there is any |
| `QueryPool.TimeoutsClear` | dnrd-2.20.3/src/query.c:216-229 | one more time-out than the binary logarithm of the number of expired queries leaves exactly the unexpired ones |
| `QueryPool.SecondSurvives` | dnrd-2.20.3/src/query.c:221-226 | of two expired queries in a row one time-out removes only the first |
| `QueryTimeout.TimedOutWalks` | dnrd-2.20.3/src/query.c:221-226 | the cursor loop is a walk that keeps the query behind each one it removes, followed by further walks while the last query is removed |
| `QueryTimeout.KeptHalves` | dnrd-2.20.3/src/query.c:221-226 | a walk halves every run of expired neighbours, rounding down, and removes the last query exactly if the run at the end is odd |
| `QueryTimeout.TimeoutClearsExactly` | dnrd-2.20.3/src/query.c:216-229 | one time-out removes every expired query if and only if, for some k, the run at the end of the list is 2^k - 1 long and every run is shorter than 2^(k+1) |
| `QueryPool.RunInv` | dnrd-2.20.3/src/query.c:60-229 | over every run each id is free once or in flight once, client ids are distinct, and the limit of sockets holds |
| `QueryList.UnlinkAt` | dnrd-2.20.3/src/query.c:198-207 | unlinking behind a cursor leaves a circular list with the right tail |
| `QueryList.LinkLast` | dnrd-2.20.3/src/query.c:186-192 | linking behind the tail leaves a circular list whose tail is the new node |
| `QueryList.Queries.constructor` | dnrd-2.20.3/src/qid.c:24-31 | all ids free and an empty list |
| `QueryList.Queries.QidGet` | dnrd-2.20.3/src/qid.c:42-52 | the id of the cell leaves the pool and the last free cell fills the gap |
| `QueryList.Queries.QidReturn` | dnrd-2.20.3/src/qid.c:54-59 | the id is free again |
| `QueryList.Queries.Add` | dnrd-2.20.3/src/query.c:150-195 | a repeated client id is found and refreshed, a new one entered with a free id or dropped; the answer is the node before it and the id written into the message |
| `QueryList.Queries.DeleteNext` | dnrd-2.20.3/src/query.c:198-212 | the query behind the cursor is gone, its id free, the tail right, the socket count equal to the length of the list |
| `QueryList.Queries.Timeout` | dnrd-2.20.3/src/query.c:216-229 | the loop ends, although removing the last query sends the cursor back to the head, with the queries the walk leaves, and counts what it removed |
| `QueryList.RepeatedIdMatches` | dnrd-2.20.3/src/query.c:165-184 | a repeated query carries the same id bytes as the first one exactly if the two bytes of the id are equal |
| `DnsName.ReadEncoded` | dnrd-2.20.3/src/dns.c:127-173 | an encoded name is read back wherever it stands |
| `DnsName.ReadIsEncoded` | dnrd-2.20.3/src/dns.c:127-173 | a name read without a pointer is the encoding that stands there |
| `DnsName.ReadPointer` | dnrd-2.20.3/src/dns.c:141-155 | a pointer is read as the name it points to |
| `DnsName.Walk` | dnrd-2.20.3/src/dns.c:138-167 | the loop ends on every message, fails exactly on bad or too long names, and stays inside the buffer |
| `DnsName.RootUnderflows` | dnrd-2.20.3/src/dns.c:169-170 | the write in front of the buffer happens exactly for the root name, such as a zero right behind the header |
| `DnsName.GetObjname` | dnrd-2.20.3/src/dns.c:127-173 | the text of the name and the place behind it, or failure; the root name underflows the buffer |
| `DnsAnswer.CompiledIsEncoded` | dnrd-2.20.3/src/master.c:527-554 | compiling the text of a name gives its encoding |
| `DnsAnswer.NameRead` | dnrd-2.20.3/src/master.c:583-589 | the question name is read at the head of the message and through the answer's pointer |
| `DnsAnswer.RoundTrip` | dnrd-2.20.3/src/master.c:807-868 | an assembled A or PTR answer decodes to the lower-cased question, type and class, and to a record with the same owner, type, time to live and data, complete exactly if no longer than 252 bytes |
| `DnsMaster.Packet.CompileName` | dnrd-2.20.3/src/master.c:527-554 | the encoding is appended behind the cursor |
| `DnsMaster.Packet.CompileInt` | dnrd-2.20.3/src/master.c:564-571 | two bytes, high first, are appended |
| `DnsMaster.Packet.CompileLong` | dnrd-2.20.3/src/master.c:573-581 | four bytes, high first, are appended |
| `DnsMaster.Packet.StartRdata` | dnrd-2.20.3/src/master.c:607-613 | a place for the length is left and marked |
| `DnsMaster.Packet.EndRdata` | dnrd-2.20.3/src/master.c:591-605 | the length of what was written since goes to the mark |
| `DnsMaster.Packet.EndAssembly` | dnrd-2.20.3/src/master.c:615-631 | flags and counts are in the header and the rest is unchanged |
| `DnsMaster.BeginAssembly` | dnrd-2.20.3/src/master.c:633-668 | an empty response that repeats the question |
| `DnsMaster.AnswerA` | dnrd-2.20.3/src/master.c:850-862 | the message for an address |
| `DnsMaster.AnswerPtr` | dnrd-2.20.3/src/master.c:823-835 | the message for a name |
| `DnsMaster.ParseQuery` | dnrd-2.20.3/src/dns.c:372-435 | the question of any message of at least a header, its name cut at a zero, without a last dot, in lower case |
| `DnsMaster.ReadAnswer` | dnrd-2.20.3/src/dns.c:188-273 | a record of any message, or failure |
| `DnsMaster.OpcodeSetExactly` | dnrd-2.20.3/src/dns.h:45-54 | GET_OPCODE is zero exactly for the standard opcode, except on responses to standard queries and on status queries |
| `DnsMaster.OpcodeExamples` | dnrd-2.20.3/src/master.c:802-803 | a status query passes for a standard one, and a response to a standard query does not |
| `DnsMaster.ReplyFits` | dnrd-2.20.3/src/master.c:785-787 | an assembled answer fits into 512 bytes |
| `DnsMaster.MasterLookup` | dnrd-2.20.3/src/master.c:789-868 | in a buffer of 512 bytes a question that the database answers is replaced by the answer, of at most 512 bytes, under its own id; any other is left alone, but for the root name |
| `DnsMaster.LookupRoundTrip` | dnrd-2.20.3/src/master.c:789-868 | what the lookup leaves for a question with a plain name decodes to that question in lower case and to a record with the data found |
| `DomainSearch.SearchSubdomain` | dnrd-2.20.3/src/domnode.c:142-166 | the longest domain whose bytes end the name, the first of several, or the default |
| `DomainSearch.LabelSuffixIsAligned` | dnrd-2.20.3/src/domnode.c:154-163 | label-wise suffix is byte-wise suffix that begins at a label |
| `DomainSearch.BytesAreEnough` | dnrd-2.20.3/src/domnode.c:154-163 | byte-wise and label-wise suffix agree if no byte inside the name's labels is the domain's first length byte |
| `DomainSearch.SearchIsRight` | dnrd-2.20.3/src/domnode.c:142-166 | the search returns the longest label-wise suffix exactly unless some domain is a longer suffix byte-wise only |
| `DomainSearch.SearchIsRightOnPlainNames` | dnrd-2.20.3/src/domnode.c:142-166 | it is right if no byte inside the name's labels is the first length byte of a domain |
| `DomainSearch.MisledExample` | dnrd-2.20.3/src/domnode.c:154-163 | a name and a domain on which it is wrong |
| `ProcedureA.SameSampleSameResults` | haveged/haveged-1.7/src/havegetest.c:354-404 | the results of a whole sample depend on its bytes only, not on how the stream was cut or what follows |
| `ProcedureA.Procedure.Test0` | haveged/haveged-1.7/src/havegetest.c:773-809 | test 0 is run once its 393216 bytes are gathered, across any calls |
| `ProcedureA.Procedure.Fips140` | haveged/haveged-1.7/src/havegetest.c:677-769 | tests 1 to 4 are run on the next 2500 bytes, in place or from the bridge |
| `ProcedureA.Procedure.Test5` | haveged/haveged-1.7/src/havegetest.c:820-865 | test 5 sees the same block |
| `ProcedureA.Procedure.Feed` | haveged/haveged-1.7/src/havegetest.c:354-404 | until the sample is complete the procedure waits with right results so far; then all results are those of the stream, and it is done or to be retried |
| `AddressAllocate.Allocator.HashOf` | dnsmasq/dnsmasq-git/dnsmasq-2.65-release-branch-8f66986/src/dhcp.c:582-585 | the 32-bit hash of the hardware address |
| `AddressAllocate.Allocator.LeaseFindMax` | dnsmasq/dnsmasq-git/dnsmasq-2.65-release-branch-8f66986/src/lease.c:632-650 | the largest lease in the range, or its first address |
| `AddressAllocate.Allocator.IsUsable` | dnsmasq/dnsmasq-git/dnsmasq-2.65-release-branch-8f66986/src/dhcp.c:605-621 | not a server address, not leased, not reserved, and no class C address that ends in 0 or 255 |
| `AddressAllocate.Allocator.ScanPings` | dnsmasq/dnsmasq-git/dnsmasq-2.65-release-branch-8f66986/src/dhcp.c:633-651 | the first recent record of the address, the number of recent ones, and an old one to reuse |
| `AddressAllocate.Allocator.Consider` | dnsmasq/dnsmasq-git/dnsmasq-2.65-release-branch-8f66986/src/dhcp.c:622-682 | taken, or refused for a ping answer or a recent offer to another client |
| `AddressAllocate.Allocator.WalkRange` | dnsmasq/dnsmasq-git/dnsmasq-2.65-release-branch-8f66986/src/dhcp.c:593-689 | the walk ends; on failure every address of the range was refused for a reason, on success the address is in it and nothing speaks against it |
| `AddressAllocate.Allocator.Allocate` | dnsmasq/dnsmasq-git/dnsmasq-2.65-release-branch-8f66986/src/dhcp.c:567-693 | an address of the first eligible range, in the order of the passes, that is not exhausted; on failure all eligible ranges are |
| `CommandSplit.TokensFail` | popen_noshell/popen_noshell.c:412-450 | a command is refused exactly for a metacharacter, quoted or not, or an open quotation |
| `CommandSplit.TokensFull` | popen_noshell/popen_noshell.c:377-389 | no token is empty |
| `CommandSplit.PrintedSplits` | popen_noshell/popen_noshell.c:392-486 | splitting undoes quoting for every list of non-empty arguments without metacharacters |
| `CommandSplit.AddToken` | popen_noshell/popen_noshell.c:377-389 | what was written becomes a token with its zero, and earlier tokens stay |
| `CommandSplit.Split` | popen_noshell/popen_noshell.c:392-486 | inside a buffer of the length of the command and one, the tokens of the grammar stand one behind the other; refused exactly if there are none or the grammar refuses |

## Left out

- Floating point: p-values and classifications of the statistical tests, the tests of AIS-31 procedure B; they have no exact specification here.
- The tests of AIS-31 procedure A themselves: they are functions of their block, including the sort of test 0 and the bit counting of tests 1 to 5; the retry and the duty cycle are modelled, the schedule of procedures around it is not.
- The fault paths of the collector ring: a collector that finds `fatal` set leaves without posting, so progress is stated for fault-free runs; the word source of a collector is abstract, and online tests that discard a fill are not modelled.
- The cache's hash function is any function of the lower-cased name, because its mixing table is made of pointer bytes; the record counter uid is unbounded; the memory for long names and for tables is a parameter; DNSSEC records are off; the address and the alias target of a record, a union in C, are separate fields.
- The reading of dnsmasq hosts files and leases, and the aliases made for them: such records are given, outside the list of last use. The flags that callers of `cache_insert` pass are assumed to be those of forward or reverse records that are not given.
- Getopt's other two orderings, which a `-` or `+` at the start of optstring or POSIXLY_CORRECT select, calls after EOF, and characters above 127, which C may return as negative numbers. Messages are named, not printed.
- rinetd's accept, refuse and slot growth, and the opening of the local socket: the relay starts from an established connection. Byte counters are unbounded.
- Matcher.MatchBody: stops where the code overruns the subject, because what the code then reads is not part of the subject.
- dnrd's NS records and name pointers inside answers, authority answers, the reading of its database, and the string hash that its lookups compare first; messages shorter than a header; what `master_lookup` does with the root name, whose text is never written.
- The prepared query of a server is not modelled, because the statement that prepares one is commented out; the random number is any cell of the pool in use.
- AddressAllocate.Allocator.Allocate: tags are two booleans per range and pass; a range is not the whole address space where the seed is computed, as the code divides by zero there.
- CommandSplit.Split: memory is there; the tokens are places in the buffer, and the final null of argv is not stored.
- ISAAC, the HAVEGE collector, tuning, launchers, D-Bus, conntrack, BPF, file reading and logging: plumbing or without a functional promise.
