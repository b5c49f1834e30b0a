# evm-scan: verified core

A Dafny model of the parts of evm-scan where a mistake would be silent: the search for how
far back an execution client can be trusted, the log sweep, two caches shared by concurrent
requests, the `.xorf` membership filters and their two writers, the ENS names, calldata and
records, the digests that get signed, and the order in which assets are asked about.

One module per concern:

| module | what it models |
|---|---|
| `HistoryFloor` | the history-floor probe against a node that may fail transiently at any call |
| `LogSweep` | the halving and doubling `eth_getLogs` sweep |
| `IndexCache` | concurrent `Cache.Get` calls, as a system of atomic steps and as an object |
| `FundingCache` | the funding cache: mutex, in-flight marks, semaphore, background refreshes |
| `Bits`, `Bloom`, `Filters`, `Codec` | Bloom bitmap, `Build`/`Contains`, the `.xorf` codec |
| `HintWriter` | the browser's `.xorf` writer, with JavaScript's signed 32-bit arithmetic |
| `Keys` | ERC-7930 addresses, key preimages, `FromIndex` |
| `Text`, `Hex`, `WireNames`, `HintNames` | separators and white space, hex, DNS wire names, hint names |
| `Abi` | the hand-written ABI encoders and `decodeBytes` |
| `Contracts` | the `evmscan.contracts` record, Go and JavaScript |
| `Digests`, `Ranking` | verdict and asset-commitment preimages; the scan order |
| `Wrappers`, `Bytes`, `Sorting` | result types; big-endian integers and byte order; what Go's `sort` promises |

Code that changes state step by step is a method over arrays, fields or local variables,
proved against a function of its inputs; the theorems are about that function. Concurrent code
is a step system: each critical section is one atomic step, and the store, the registry and the
scheduler answer as they like between steps. Integers are unbounded, so `uint32`, `uint64` and
`int64` wrap-around is written out wherever the original can reach it. Foreign code (keccak256,
the binary-fuse8 library, the floating-point sizing rules) is a function parameter constrained
by nothing but determinism and the clamps the source states (`Filters.Library.Sound`,
`Keys.IsHash`).

## Where the code does something other than its description

Each item has its exact condition, for all inputs, and a lemma at a concrete input.

* A `Get` that starts with a filter in the cache can still fail: an empty or unbuildable
  snapshot is returned as an error even then, while coverage and snapshot *errors* are absorbed
  as described. Exactly when: `IndexCache.BackedCallFailsIff`; a history:
  `IndexCache.EmptySnapshotFailsDespiteFilter`.
* `Encode` preallocates eight bytes for every key the header counts, whatever the structure,
  and `Decode` holds only a sorted payload to that count. An accepted Bloom or fuse8 file can
  claim a count on which re-encoding panics. Exactly when: `Codec.EncodeOfDecode` with
  `Codec.GrantedIff`; a file: `Codec.HugeCountPanics`.
* `Decode` also accepts files that `Encode` would never write: reserved flag bits and
  descriptors over the limit (`Codec.EncodeOfDecode`, `Codec.FlagBitIsLost`). `Meta.BloomBits`
  is a request to `Build` and is not in the file (`Codec.DecodeOfEncode`).
* `DNSDecode` is called the inverse of `DNSEncode`. It is, exactly on the empty name and on
  names whose labels have 1 to 63 bytes (`WireNames.DecodeOfEncode`, `WireNames.LoneDotIsLost`);
  in the other direction a wire label that itself holds a dot does not come back
  (`WireNames.EncodeOfDecode`, `WireNames.DottedLabelIsLost`).
* `ParseHintName` is called the inverse of `HintName`. A name over 512 bytes prints but does
  not parse (`HintNames.NameSurvives`, `HintNames.DeepNamesAreRefused`); it reads more names
  than `HintName` prints (`HintNames.PrintAfterParse`); and twenty digits can spell more than a
  `uint64` (`HintNames.ParsedExactIff`, `HintNames.TwentyNines`).
* `JoinContracts` is called the inverse of `SplitContracts`. A list comes back exactly when it
  is strictly ascending, a record exactly when its entries are canonical
  (`Contracts.SplitUndoesJoinIff`, `Contracts.JoinUndoesSplitIff`, `Contracts.RepetitionIsLost`).
* `parseContracts` and `SplitContracts` differ on padding that is white space to one language
  only, on the case of `0x` and on repeats (`Contracts.ReadersAgree`, `Contracts.PaddingDivides`).
* The verdict digest is independent of the order of the list exactly when no address carries
  two weights (`Digests.OrderIrrelevantIff`, `Digests.TwoWeightsDiffer`).
* `decodeBytes` guards its sums in `uint64`; an offset or a length near 2^64 passes the guard
  and the slice expression panics (`Abi.DecodedMeaning`, `Abi.OffsetPanics`).
* A key can have two live refreshes in the funding cache, one of them past giving up its
  in-flight mark but not yet its token (`FundingCache.TokensAndMarksBalance`,
  `FundingCache.TwoRefreshesOfOneKey`).

## Model

| member | source | states |
|---|---|---|
| `HistoryFloor.ProbeTwice` | internal/chain/history.go:111-268 | transient failures never move the floor: over one set of per-block verdicts, two probes under any two schedules of noise, cancellation and retry budget report the same outcome (floor, boundary, non-monotone flag, anchor result, or the same refusal) unless one of them gives up |
| `HistoryFloor.Prober.ProbeHistoryFloor` | internal/chain/history.go:127-268 | against any node at most Attempts * (15 + ceil(log2(max(head,1)))) calls, a look at the context before each, and Cancelled exactly when a look finds it cancelled, at the first such look; against an honest one the outcome is the noiseless outcome or an abort; Exhausted means a whole retry budget of noise on one block |
| `HistoryFloor.Prober.constructor` | internal/chain/history.go:39-52 | a fresh prober, nothing spent; the attempts configured, or five |
| `HistoryFloor.Prober.Probe` | internal/chain/history.go:133-162 | a definite answer is the last reply, never a transient one, and an honest node's verdict; at most the attempt budget of calls; a look before each call, after each failed one and during each wait |
| `HistoryFloor.Prober.Search` | internal/chain/history.go:177-193 | the bisection ends where the noiseless one ends, with the refusal of the block just below, in ceil(log2(gap)) probes |
| `HistoryFloor.Prober.FirstFloor` | internal/chain/history.go:172-194 | zero when genesis is served, otherwise the boundary found from genesis |
| `HistoryFloor.Prober.HighestUnservable` | internal/chain/history.go:290-322 | the highest sampled block refused as history-unavailable, with its own refusal, in at most 12 probes |
| `HistoryFloor.Prober.Look` | internal/chain/history.go:306-319 | one sample: the better of it and the best so far, with that block's refusal |
| `HistoryFloor.Prober.Audit` | internal/chain/history.go:212-244 | a floor of zero is looked into, any other left alone; at most one raise, and then the noiseless reading |
| `HistoryFloor.Prober.CheckAnchor` | internal/chain/history.go:246-268 | given that reading, the noiseless outcome or an abort, for at most one more query |
| `HistoryFloor.Prober.AuditRound` | internal/chain/history.go:213-240 | the floor is raised exactly when a sampled block is so refused, to the boundary above it |
| `HistoryFloor.FloorIsABoundary` | internal/chain/history.go:172-244 | a reported floor is served and at most head, the block below it is refused, Boundary and BoundaryErr are that block's answer, the floor is above each of the twelve sampled blocks head*i/13 refused as history-unavailable, and it is 0 exactly when genesis is served and none of them is so refused |
| `HistoryFloor.OutcomeExactly` | internal/chain/history.go:164-268 | exactly when each outcome comes out: Found when head is served and no anchor lies in [floor, head] or it holds at least one and at least MinLogs logs; otherwise the head's refusal, the anchor's refusal or its short count, with that block's own answer |
| `HistoryFloor.WideGapIsFound` | internal/chain/history.go:195-244 | a stretch of unavailable blocks wider than a thirteenth of the range cannot escape the audit, wherever it lies: the floor ends above all of it |
| `HistoryFloor.SamplesLeaveNoGap` | internal/chain/history.go:301-309 | every stretch that wide holds a sampled block |
| `HistoryFloor.MonotoneFloorIsLeast` | internal/chain/history.go:195-199 | on a node whose availability is upward closed the served blocks are exactly those from the floor up, and nothing is flagged |
| `HistoryFloor.CeilLog2Meaning` | internal/chain/history.go:180-192 | the bound's logarithm is the least exponent whose power of two reaches the range |
| `LogSweep.SweepLogs` | internal/chain/source.go:212-250 | the windows handed over tile [From, To] on success and a prefix of it otherwise, are exactly the queries answered with logs and carry those logs, from a truthful source concatenate to the logs of the range, and are within [Min, Max] (shorter only at the end); calls are at most 2 * windows + halvings(Max, Min), plus 1 on failure; at most 2 * failed calls + 1 windows are smaller than Max; the caller's refusal, cancellation and failure are each reported exactly on the query that brings them, with the sweep going on after every other; and an undisturbed sweep of a source that serves Min-sized ranges gets to the end |
| `LogSweep.SweepWindows` | internal/chain/source.go:218-250 | the loop terminates and keeps tiling and both accounts |
| `LogSweep.Turn` | internal/chain/source.go:219-248 | one turn keeps tiling, accounts and the story of the queries: it advances the cursor or shrinks the window, or ends the sweep as the query decides |
| `LogSweep.React` | internal/chain/source.go:228-247 | the result of a reply: the caller's verdict on logs, else cancellation, else halving while the window is above Min, else failure |
| `LogSweep.StoryEnds` | internal/chain/source.go:228-241 | what a story of queries says about its result, and that an undisturbed one ends well |
| `LogSweep.Ask` | internal/chain/source.go:220-227 | the call is over the window cut off at To |
| `LogSweep.BooksDeliver` | internal/chain/source.go:243-247 | a delivery pays for one earlier halving and for one short window |
| `LogSweep.BooksHalve` | internal/chain/source.go:232-235 | a halving owes at most two short windows |
| `LogSweep.Chunks.Defaults` | internal/chain/source.go:190-201 | 1 <= Min <= Max afterwards; each is what was configured, or its default of 10000 and 1, or Min capped at Max |
| `LogSweep.HandedRefines` | internal/chain/source.go:219-248 | windows that each carry their own range's logs add up to one query of the whole range |
| `LogSweep.TilesPartition` | internal/chain/source.go:203-204 | tiling means every block lies in exactly one window, in ascending order |
| `LogSweep.GrowCost` | internal/chain/source.go:243-247 | creeping back up stays within the bounds and buys back at most one halving |
| `LogSweep.HalvingsMeaning` | internal/chain/source.go:232-235 | the number of halvings is logarithmic in the window over the minimum |
| `LogSweep.WindowEndAhead` | internal/chain/source.go:219-223 | in uint64 a window never ends before it begins exactly when To + window does not pass 2^64 |
| `IndexCache.StepKeepsInv` | internal/hintfilter/index.go:109-169 | every step of every interleaving keeps filter, bytes, manifest and builtTo of one build, never shrinks the reach, never drops an installed filter and never touches a static one |
| `IndexCache.ReachNeverShrinks` | internal/hintfilter/index.go:158-166 | over whole histories builtTo never decreases and always describes the filter kept |
| `IndexCache.LaterGetReachesAsFar` | internal/hintfilter/index.go:109-169 | a Get that starts after another returned never hands back a smaller ToBlock |
| `IndexCache.StoreErrorsAreAbsorbed` | internal/hintfilter/index.go:118-148 | once a filter is installed, a later Get fails only on an empty or unbuildable index, never on a coverage or snapshot error |
| `IndexCache.BackedCallFailsIff` | internal/hintfilter/index.go:109-156 | over every history: a Get that starts once a filter is installed fails exactly when its own coverage answer lay past what was cached as it began, the interval over, and its own snapshot was empty or unbuildable |
| `IndexCache.CallPersists` | internal/hintfilter/index.go:109-169 | a call never goes back a stage and changes only by going on |
| `IndexCache.ReturnedExactly` | internal/hintfilter/index.go:109-169 | every returned call is accounted for by its own steps: what was kept as it began when coverage fails, when that reaches far enough or is young enough, or when the snapshot fails; an error for an empty or unbuildable snapshot; else what is kept right after its install |
| `IndexCache.RefreshReaches` | internal/hintfilter/index.go:127-168 | a call whose own coverage answered `to` and whose own snapshot was good hands back a filter reaching at least `to`, and from then on so does the cache |
| `IndexCache.KeptIsFurthest` | internal/hintfilter/index.go:158-166 | what is kept is the build of the install that reached furthest, the latest on ties, with that install's time; nothing before any install |
| `IndexCache.WhereBuilt` | internal/hintfilter/index.go:142-156 | a build is of the call's own coverage and snapshot answers |
| `IndexCache.EmptySnapshotFailsDespiteFilter` | internal/hintfilter/index.go:149-151 | a concrete history of that failure |
| `IndexCache.Cache.constructor` | internal/hintfilter/index.go:101-103 | a new cache is an initial state of the system |
| `IndexCache.Cache.Look` | internal/hintfilter/index.go:110-116 | the first critical section copies the guarded fields |
| `IndexCache.Cache.Finish` | internal/hintfilter/index.go:158-168 | the last critical section is the install step of the system and hands back what is kept |
| `FundingCache.TokensAndMarksBalance` | internal/api/funding.go:42-99 | in every state of every history the tokens held are the live refreshes, at most four; inflight is exactly the keys of the refreshes that have not cleared theirs, one each; with none live nothing remains |
| `FundingCache.StepKeepsInv` | internal/api/funding.go:64-116 | every get, answer, put, clear, release and fetch keeps tokens, marks and readings consistent |
| `FundingCache.EveryRefreshCanMove` | internal/api/funding.go:85-99 | no refresh is ever stuck; releasing a token never waits |
| `FundingCache.Drains` | internal/api/funding.go:85-99 | from any consistent state, finishing the live refreshes takes at most four steps each and leaves no token and no mark |
| `FundingCache.KnownWasRead` | internal/api/funding.go:64-84 | whatever get reports for a key was once read from the registry for that key |
| `FundingCache.RefreshStartsIff` | internal/api/funding.go:64-83 | over every history: a get starts a refresh exactly when the key's latest recorded reading is not within 300 seconds, no refresh of the key is yet to clear its mark and fewer than four are live; else it changes nothing |
| `FundingCache.OnFileIsLatest` | internal/api/funding.go:112-116 | what is on file for a key is the reading and the time of the last step that recorded one |
| `FundingCache.SettlesItsAnswer` | internal/api/funding.go:94-98 | a refresh records what its own read was answered, for the key it was started for |
| `FundingCache.TwoRefreshesOfOneKey` | internal/api/funding.go:86-91 | mark and token are given up apart: a history with two live refreshes of one key |
| `FundingCache.Cache.constructor` | internal/api/funding.go:51-58 | a new cache is the initial state |
| `FundingCache.Cache.Get` | internal/api/funding.go:64-83 | answers from what is known; takes a token and sets the mark together, and only when the reading is stale, unmarked and a worker is free |
| `FundingCache.Cache.Put` | internal/api/funding.go:112-116 | only the reading of that key changes |
| `FundingCache.Cache.ClearMark` | internal/api/funding.go:87-89 | only the mark of that key goes |
| `FundingCache.Cache.ReleaseToken` | internal/api/funding.go:90 | one token is given back |
| `Bloom.BitmapBits` | internal/hintfilter/bloom.go:122-156 | a bit is set exactly when some key probes it |
| `Bloom.BitmapOfSet` | internal/hintfilter/bloom.go:132-135 | the bitmap depends only on the set of keys |
| `Bloom.ProbeWalks` | internal/hintfilter/bloom.go:143-149 | in plain arithmetic, the walk from the low half of the key by its high half made odd, modulo 2^32, then by m |
| `Bloom.MemberExactly` | internal/hintfilter/bloom.go:158-166 | a key tests present exactly when every bit it probes is probed by some key added |
| `Bloom.AddKeepsMembers` | internal/hintfilter/bloom.go:151-156 | adding a key never turns a yes into a no |
| `Bloom.KeysAreMembers` | internal/hintfilter/bloom.go:158-166 | every key added tests present |
| `Bloom.BloomFilter.constructor` | internal/hintfilter/bloom.go:131 | m/8 zero bytes |
| `Bloom.BloomFilter.Add` | internal/hintfilter/bloom.go:151-156 | in place, exactly the key's probed bits are added |
| `Bloom.BloomFilter.Contains` | internal/hintfilter/bloom.go:158-166 | yes exactly when all the key's bits are set |
| `Bloom.NewBloom` | internal/hintfilter/bloom.go:122-136 | refuses exactly the bad sizes and otherwise gives the bitmap of the keys |
| `Bits.SetBitSets` | internal/hintfilter/bloom.go:154 | or-ing a shifted 0x80 into a byte sets that bit and no other |
| `Bits.BitsDetermine` | internal/hintfilter/bloom.go:168-170 | bitmaps with the same bits are the same bytes |
| `Bits.BitMeaning` | internal/hintfilter/bloom.go:162 | bit p is the digit of weight 2^(7 - p % 8) of byte p / 8 |
| `Filters.BuiltOfSet` | internal/hintfilter/filter.go:99-152 | Build gives one answer, error or filter, for any reordering or duplication of the keys |
| `Filters.BuiltShape` | internal/hintfilter/filter.go:99-152 | which structure each code gives, the sorted list up to 4096 distinct keys and fuse8 beyond where none is asked for, the Bloom size and probe count, every refusal, and the count of distinct keys |
| `Filters.Build` | internal/hintfilter/filter.go:99-152 | the in-place sort, compaction and structure choice compute that answer |
| `Filters.SortKeys` | internal/hintfilter/filter.go:108 | the caller's slice ends up sorted |
| `Filters.Compact` | internal/hintfilter/filter.go:109-116 | the prefix kept is the slice without adjacent repeats |
| `Filters.Search` | internal/hintfilter/filter.go:168-170 | the first position at or above the key |
| `Filters.Contains` | internal/hintfilter/filter.go:166-177 | exact on an ascending key list; otherwise never a yes the structure does not support |
| `Filters.BuiltContains` | internal/hintfilter/filter.go:99-177 | every input key tests present; the sorted structure holds exactly the input keys |
| `Codec.DecodeOfEncode` | internal/hintfilter/codec.go:121-244 | every encodable filter, sorted, Bloom or fuse8, is written exactly when make grants the capacity asked for, and read back unchanged except for the sizing request, which is not in the file |
| `Codec.EncodeOfDecode` | internal/hintfilter/codec.go:121-244 | an accepted file is written back byte for byte exactly when its reserved flag bits are clear, its descriptor is within the limit and the capacity its count asks for is granted |
| `Codec.GrantedIff` | internal/hintfilter/codec.go:126 | the capacity, in Go's wrapping int arithmetic, is granted exactly when 42 + descriptor + 8 * count, modulo 2^64, is no more than the machine grants |
| `Codec.SortedIsGranted` | internal/hintfilter/codec.go:203-205 | a sorted file is held to its count, so it is granted wherever the file itself fits |
| `Codec.HugeCountPanics` | internal/hintfilter/codec.go:126 | an accepted Bloom file claiming 2^60 keys on which Encode panics on every machine |
| `Codec.FlagBitIsLost` | internal/hintfilter/codec.go:178 | an accepted file with the second flag bit set, written back without it |
| `Codec.HeaderLayout` | internal/hintfilter/codec.go:20-33 | the documented header, field by field at its byte offset |
| `Codec.BodyLayout` | internal/hintfilter/codec.go:35-53 | the documented payload of each structure, field by field |
| `Codec.DecodePanicsIff` | internal/hintfilter/codec.go:203-206 | Decode panics exactly on a sorted count whose eightfold wraps to the length present |
| `Codec.SplitOfFile` | internal/hintfilter/codec.go:166-200 | a file splits into exactly the fields it was put together from |
| `Codec.FileOfSplit` | internal/hintfilter/codec.go:166-200 | a file that splits is the file of its fields |
| `Codec.BuiltIsEncodable` | internal/hintfilter/codec.go:121-150 | whatever Build returns can be encoded, and the capacity is granted where the keys fit |
| `Codec.NoFalseNegatives` | internal/hintfilter/codec.go:121-244 | after Build, Encode and Decode every input key tests present, whenever Encode is granted its capacity, which it is where the keys fit |
| `Codec.Encode` | internal/hintfilter/codec.go:121-164 | writes exactly that file, refuses a long descriptor, or panics on the capacity |
| `Codec.AppendHeader` | internal/hintfilter/codec.go:127-138 | one append a field gives the fixed header |
| `Codec.AppendPayload` | internal/hintfilter/codec.go:142-162 | the appends of each structure give its payload |
| `Codec.Decode` | internal/hintfilter/codec.go:166-244 | reads exactly that filter, refuses, or panics on a sorted count whose eightfold wraps |
| `Codec.DecodePayload` | internal/hintfilter/codec.go:197-242 | field by field, the payload of each structure with every refusal |
| `Codec.BloomFromBytes` | internal/hintfilter/bloom.go:172-187 | accepts exactly a good size, a positive probe count and a bitmap of that size |
| `Codec.DecodeKeys` | internal/hintfilter/codec.go:206-209 | the key loop reads each eight-byte word in its place |
| `HintWriter.WritersAgree` | web/hints.js:1219-1246 | given one size and probe count, the browser's file is byte for byte what Go builds and encodes from the same key set, however it was listed, unless Go is refused the capacity |
| `HintWriter.ProbesAgree` | web/hints.js:1204-1208 | the signed Math.imul probe is Go's uint32 probe for every key and index |
| `HintWriter.BloomAdd` | web/hints.js:1210-1215 | in place, the same bits Go adds |
| `HintWriter.BuildBitmap` | web/hints.js:1226-1228 | the bitmap of the distinct keys |
| `HintWriter.Put` | web/hints.js:1231-1244 | a field lands after what is already written and keeps it |
| `HintWriter.PutHeader` | web/hints.js:1230-1241 | field by field, the codec's header and count |
| `HintWriter.BuildHint` | web/hints.js:1219-1246 | the whole file is the encoding of the matching Bloom filter |
| `HintWriter.HintLayout` | web/hints.js:1230-1245 | every byte of the browser's file, down to the bits of its bitmap |
| `Keys.InteropInjective` | internal/hintfilter/key.go:134-150 | the ERC-7930 preimage names one chain and one contract |
| `Keys.InteropLayout` | internal/hintfilter/key.go:120-150 | the ERC-7930 form byte by byte, the chain id in as few bytes as it takes |
| `Keys.SubkeyLayout` | internal/hintfilter/key.go:85-92 | secret, domain, chain and kind, in that order |
| `Keys.PairKeyIs` | internal/hintfilter/key.go:100-119 | a key is the first eight bytes of the hash of subkey, account and token |
| `Keys.ChainIdExactly` | internal/ens/ens.go:287-315 | exactly which records name a chain, and which |
| `Keys.ChainReference` | internal/hintfilter/key.go:135-144 | the byte loop yields the shortest big-endian form, one zero byte for zero |
| `Keys.MinimalUnique` | internal/hintfilter/key.go:126-131 | bytes without a leading zero are the minimal form of the number they spell |
| `Keys.ChainPartDecodes` | internal/ens/ens.go:287-315 | the chain part of any address decodes back to its chain, for every chain id but zero |
| `Keys.RecordCanonicalIff` | internal/ens/ens.go:276-286 | an accepted record is the canonical one exactly when its reference has no leading zero and nothing follows |
| `Keys.DecodeChainID` | internal/ens/ens.go:287-315 | the shift-and-or loop with every refusal |
| `Keys.SubkeyPreimageInjective` | internal/hintfilter/key.go:80-92 | secrets of any length, chains and kinds never share a preimage |
| `Keys.IndexKeysMembers` | internal/hintfilter/index.go:44-49 | the keys are the hashes of the indexed pairs, nothing more and nothing less |
| `Keys.IndexedOfPairs` | internal/hintfilter/index.go:39-61 | snapshots with the same (account, asset) pairs publish the same filter and bytes whatever the order, grouping and repetition |
| `Keys.IndexedMeaning` | internal/hintfilter/index.go:39-61 | a plain filter of kind 2 for that chain and block in no epoch, holding the key of every indexed pair, and its file; an index without pairs is refused as empty |
| `Keys.FromIndex` | internal/hintfilter/index.go:39-61 | collecting the keys, Build and Encode compute that filter and those bytes |
| `Keys.CollectKeys` | internal/hintfilter/index.go:44-49 | the append loops yield one key per listed pair, in order |
| `Keys.AppendSet` | internal/hintfilter/index.go:46-48 | the inner loop appends one key per asset of the account |
| `WireNames.DecodeOfEncode` | internal/ens/ens.go:235-275 | decoding undoes encoding exactly on the empty name and on names with labels of 1 to 63 bytes |
| `WireNames.EncodeOfDecode` | internal/ens/ens.go:235-275 | an accepted wire name is written back exactly when no label holds a dot |
| `WireNames.WireLayout` | internal/ens/ens.go:233-245 | each label lies behind its own length byte |
| `WireNames.WireLength` | internal/ens/ens.go:233-245 | the wire ends in one zero byte and holds nothing else |
| `WireNames.LoneDotIsLost` | internal/ens/ens.go:237-239 | the name "." comes back empty |
| `WireNames.DottedLabelIsLost` | internal/ens/ens.go:267-274 | a wire name of one label that is a dot is written back without it |
| `WireNames.EncodersAgreeIff` | web/ensrec.js:121-131 | the browser writes Go's bytes exactly for names whose labels have 1 to 63 bytes |
| `WireNames.DNSEncode` | internal/ens/ens.go:235-245 | the loop writes that wire form |
| `WireNames.DNSDecode` | internal/ens/ens.go:250-275 | the cursor loop reads it, with every refusal |
| `HintNames.NameSurvives` | internal/api/ensgateway.go:122-127 | print, encode, decode, parse: the account, chain id and explicit-chain flag come back for every account, chain id and valid parent whose name is within 512 bytes, and every longer name is refused |
| `HintNames.DecimalRoundTrip` | internal/ens/hintname.go:77-121 | every uint64 survives printing and parsing |
| `HintNames.HintNameIs` | internal/ens/hintname.go:77-83 | the name is the format the source prints |
| `HintNames.DecimalIs` | internal/ens/hintname.go:80 | the usual digits, most significant first |
| `HintNames.NamedExactly` | internal/ens/hintname.go:87-107 | exactly which labels name an account, which account, and when the second label is a chain |
| `HintNames.ParsedExactIff` | internal/ens/hintname.go:109-121 | parseDecimal gives the number spelled exactly when it fits a uint64 |
| `HintNames.TwentyNines` | internal/ens/hintname.go:109-121 | twenty nines are read as another number |
| `HintNames.PrintAfterParse` | internal/ens/hintname.go:77-107 | a parsed name is printed back, under some parent, exactly when it has forty lower-case digits without 0x, a chain label (if any) without leading zeros and within a uint64, then "hints" and a parent |
| `HintNames.DeepNamesAreRefused` | internal/ens/hintname.go:44-46 | under one valid parent of 513 bytes every name prints and none parses |
| `HintNames.ParseDecimal` | internal/ens/hintname.go:109-121 | the wrapping loop computes the number modulo 2^64 or refuses |
| `HintNames.Normalize` | internal/ens/hintname.go:38-64 | label by label, trimmed and lower-cased, or refused |
| `HintNames.NormalizedExactly` | internal/ens/hintname.go:38-64 | exactly which names pass, and that what is left is the trimmed name in lower case |
| `HintNames.LabelExactly` | internal/ens/hintname.go:49-60 | a label passes with 1 to 63 bytes, none a blank or control character |
| `HintNames.NormalizedPlain` | internal/ens/hintname.go:38-64 | a plain name with fitting labels normalises to its lower-case self unless it is over the limit |
| `Abi.ArgumentReads` | internal/ens/ens.go:187-199 | each head offset points at that argument's length word, and following it gives the argument |
| `Abi.ArgumentPadded` | internal/ens/ens.go:344-351 | zeros to the end of each argument's last word, tails one after another, and nothing else |
| `Abi.ResolveLayout` | internal/ens/ens.go:187-196 | Go's resolve calldata is the specified layout of two byte strings |
| `Abi.NodeStringLayout` | internal/ens/ens.go:327-352 | encodeNodeString is the specified layout of a word and a string |
| `Abi.EncodeDynamic` | web/ensrec.js:144-167 | the running-offset loop writes the specified layout |
| `Abi.EncodeResolve` | web/ensrec.js:176-178 | the browser's calldata equals Go's |
| `Abi.EncodeText` | web/ensrec.js:171-173 | likewise for text, the node passing through BigInt and keeping its leading zeros |
| `Abi.DecodedMeaning` | internal/ens/ens.go:354-374 | in terms of the numbers its words spell: the bytes, a refusal, or, past 2^64, a panic |
| `Abi.OffsetPanics` | internal/ens/ens.go:361-365 | two words whose offset is 2^64 - 1 pass the guard and panic |
| `Abi.SmallIsSmall` | internal/ens/ens.go:376-395 | the word check holds exactly for numbers below 2^64, and the value kept is then the number |
| `Abi.DecodeOfEncode` | internal/ens/ens.go:354-374 | decodeBytes recovers any abi.encode(bytes) value |
| `Hex.OrderKept` | web/ensrec.js:51-58 | text order of lower-case hex is byte order |
| `Hex.EncodeLayout` | internal/ens/hintname.go:78 | two of the usual digits a byte, high half first |
| `Hex.HexDigits` | web/ensrec.js:42 | digits in either case and nothing else |
| `Hex.Lowers` | web/ensrec.js:55 | lower-casing changes the twenty-six capitals and nothing else |
| `Contracts.SplitOfJoin` | internal/ens/hintname.go:128-152 | reading the record back gives the strictly ascending set |
| `Contracts.SplitUndoesJoinIff` | internal/ens/hintname.go:123-152 | a list comes back exactly when it is strictly ascending |
| `Contracts.JoinUndoesSplitIff` | internal/ens/hintname.go:123-152 | a record is read and written back unchanged exactly when it is empty or its entries are lower-case, prefixed, unpadded and strictly ascending |
| `Contracts.RepetitionIsLost` | internal/ens/hintname.go:128-135 | a list with a repetition does not come back |
| `Contracts.RecordIsCanonical` | internal/ens/hintname.go:122-136 | two lists have one record exactly when they have the same addresses |
| `Contracts.SortedUnique` | internal/ccip/ccip.go:56-69 | the canonical list of the set, leaving the caller's list alone |
| `Contracts.Compact` | internal/ccip/ccip.go:60-68 | the in-place loop drops adjacent repeats |
| `Contracts.JoinContracts` | internal/ens/hintname.go:128-135 | writes that record |
| `Contracts.SplitContracts` | internal/ens/hintname.go:138-152 | reads the addresses in order, refusing a malformed entry |
| `Contracts.SplitExactly` | internal/ens/hintname.go:138-152 | exactly which records are read, and entry by entry what is read |
| `Contracts.AddressForms` | internal/ens/hintname.go:146-149 | an entry is forty hex digits, bare or behind 0x or 0X |
| `Contracts.RecordSpelled` | web/ensrec.js:42 | the spelling of an entry and the pattern it is matched against |
| `Contracts.FormatContracts` | web/ensrec.js:51-58 | refuses exactly the lists with a non-address in them and otherwise writes Go's record |
| `Contracts.ReadersAgree` | web/ensrec.js:63-75 | whatever both sides read they read alike, but for repeats; of what Go reads the browser reads exactly the records whose entries have a lower-case 0x and padding that is white space to both, and of what the browser reads Go reads exactly those with such padding |
| `Contracts.PaddingDivides` | web/ensrec.js:64-70 | U+0085 before an address is read by Go alone, U+FEFF by the browser alone |
| `Text.TrimsAgree` | internal/ens/hintname.go:139-145 | wherever both languages trim to nothing or to printable edges, they trim alike |
| `Text.SpaceIsUnicode` | internal/ens/hintname.go:139-145 | the two white-space tables are Unicode's, with U+0085 for Go alone and U+FEFF for JavaScript alone |
| `Contracts.ParseOfFormat` | web/ensrec.js:63-75 | the record either side writes reads in the browser as the ascending set |
| `Digests.VerdictsCanonical` | internal/api/verdictsig.go:45-61 | on lists with distinct addresses, equal preimages are exactly permutations |
| `Digests.PreimageDetermines` | internal/api/verdictsig.go:49-61 | on all lists, equal preimages imply permutations |
| `Digests.OrderIrrelevantIff` | internal/api/verdictsig.go:45-54 | every reordering signs the same digest exactly when no address carries two weights |
| `Digests.TwoWeightsDiffer` | internal/api/verdictsig.go:52-54 | one address with two weights, in its two orders, signs two digests |
| `Digests.VerdictLayout` | internal/api/verdictsig.go:55-59 | record i is the i-th address and its weight, 0x01 for +1 and 0xff for -1 |
| `Digests.VerdictsAscend` | internal/api/verdictsig.go:52-54 | the addresses ascend as numbers |
| `Digests.VerdictBuffer` | internal/api/verdictsig.go:49-60 | the loop writes that preimage |
| `Digests.AssetsCanonical` | internal/api/assetsig.go:32-51 | equal preimages are exactly permutations, for every list |
| `Digests.AssetLayout` | internal/api/assetsig.go:43-49 | record i is the i-th chain in eight bytes and its contract |
| `Digests.AssetsAscend` | internal/api/assetsig.go:37-42 | by chain, then by contract as a number |
| `Digests.AssetBuffer` | internal/api/assetsig.go:35-50 | the loop writes that preimage |
| `Ranking.RankLessIsWeakOrder` | internal/api/handlers.go:228-239 | rankLess is a strict weak order |
| `Ranking.OrderIsTheOrder` | internal/api/handlers.go:204-239 | the result is the one sorted permutation that keeps ties in place, and every reported or voted-down row follows every row that is not |
| `Ranking.OrderOnFields` | internal/api/handlers.go:190-239 | on the rows' own fields: reported or voted-down rows last; among equals committed first; among equals in that by vote balance; then by amount vouched |
| `Ranking.FieldsDecide` | internal/api/handlers.go:218-239 | exactly when one row comes before another, on their fields |
| `Ranking.NetExactIff` | internal/api/handlers.go:80 | the balance is the difference of the counts exactly when that fits an int64 |
| `Ranking.OrderAssets` | internal/api/handlers.go:204-208 | the slice ends up in that order |
| `Ranking.OrderAccountRows` | internal/api/handlers.go:533-548 | both slices are permuted by one permutation: the pairs end up sorted as pairs |
| `Ranking.PairsConserved` | internal/api/handlers.go:531-532 | no pair is lost or re-paired |
| `Ranking.ViewsInOrder` | internal/api/handlers.go:533-548 | the views end up in the order orderAssets gives them |
| `Sorting.StableSortCorrect` | internal/api/handlers.go:201-208 | a sorted permutation with ties in their old order |
| `Sorting.StableUnique` | internal/api/handlers.go:201-203 | those facts leave one possible result |
| `Sorting.TotalSortUnique` | internal/api/assetsig.go:37-42 | under a total order only the multiset matters, stable or not |
| `Sorting.CanonicalOfSet` | internal/ccip/ccip.go:53-69 | sort-and-dedupe gives one list per set |

## Left out

- LogSweep.SweepLogs: requires To + Max < 2^64 and 2 * Max < 2^64; beyond that the cursor arithmetic of the source wraps (`LogSweep.WindowEndAhead`).
- HistoryFloor.WideGapIsFound: needs head * 12 < 2^64, because the samples are computed with a wrapping product; the other floor theorems hold without it.
- HistoryFloor.Prober.Probe: back-off durations are not modelled; a sleep appears only as one more look at the context.
- Filters.SortKeys: the library sort is modelled by its result, not by its swaps; likewise in Contracts, Digests and Ranking.
- Codec.Decode: memory running out below the limit make enforces is not modelled, here and in Encode; only the capacity and length that are asked for are.
- Codec.Encode: Meta.Structure is read off the payload instead of being stored twice.
- Codec.GrantedIff: Go's int is taken to be 64 bits wide.
- Filters.Build: the sorted structure keeps the caller's compacted slice; that later aliasing is not modelled, the payload here is a value.
- Keys.FromIndex: the manifest (with its timestamp and digest text) is not modelled.
- HintWriter.WritersAgree: assumes one m and one probe count for both writers; the two sizing rules round m differently, and m travels in the file.
- HintNames.Normalize: ASCII names only; NFC and Unicode lower-casing are library code that leaves ASCII alone.
- Contracts.ReadersAgree: records are UTF-8 bytes on both sides; how a browser decodes ill-formed bytes is not modelled.
- FundingCache.StepKeepsInv: a panic inside a registry call is not modelled; the clock of a put is an arbitrary number.
- Ranking.OrderAssets: amounts vouched are integers; parsing them from text is not modelled.
- `ClassifyLogsError` and `isRangeLimit`: string tables; their verdict is an input.
- keccak256, ECDSA recovery, EIP-712 hashing and the binary-fuse8 construction: foreign code, kept as uninterpreted functions.
- Floating-point sizing (`BloomBits`, `bloomK`, `bloomBitsFor`): functions with the clamps the code states.
- The JavaScript readers `decodeString`, `decodeBytes`, `decodeResolve`, and the rest of `web/`: user interface and easy readers.
- The salt descriptor's JSON, filter saturation and slots.
- HTTP handlers, JSON shapes, command lines, configuration, SQL, Merkle trees, prices, the publisher, the Solidity contracts.
- The chain supervisor, the mirror, and the vote and name relays: their guarantees rest on store and publisher code not modelled here.
