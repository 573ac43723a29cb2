# A verified model of git-internal

git-internal is a Rust library that implements Git's object formats and smart protocol; it keeps a
few of Git's own C files under `docs/gitc` as the reference for its pack encoder. This project models
the parts of it that are hardest to get right and proves what they are for, for all inputs, all runs
and all reachable states.

| file | models |
|---|---|
| `DeltaFormat.dfy`, `DeltaDecode.dfy`, `DeltaEncode.dfy` | the delta format, its decoder and the diff-driven encoder (`src/delta`) |
| `GitDelta.dfy`, `DeltaIndex.dfy`, `Chains.dfy` | Git's Rabin encoder and the index it searches (`docs/gitc/diff-delta.c`) |
| `UnifiedDiff.dfy`, `PatchApply.dfy` | the streaming unified-diff assembler and the strict applier (`src/diff.rs`) |
| `ObjectGraph.dfy`, `PackCollect.dfy` | the graph walk that chooses the objects of a pack (`src/protocol/pack.rs`) |
| `DeltaChains.dfy`, `DeltaSearch.dfy` | breaking reused delta chains, and the work-stealing delta search (`docs/gitc/pack-objects.c`) |
| `PktLine.dfy`, `SmartRequests.dfy`, `SmartProtocol.dfy` | pkt-lines, side bands, request parsing and the two services (`src/protocol`) |
| `IndexFile.dfy`, `IndexGrammar.dfy`, `IndexStore.dfy` | the Git index file (`src/internal/index.rs`) |
| `PackIdx.dfy` | the tables of a pack index (`docs/gitc/pack-write.c`) |
| `CanonicalJson.dfy` | canonical JSON (`src/internal/object/integrity.rs`) |
| `Basics.dfy`, `ByteOrder.dfy`, `Encoding.dfy`, `HashKinds.dfy` | bytes, their order, UTF-8, object formats |

The main results:

- **Delta codec.** The decoder accepts exactly the streams of the grammar and returns what they denote.
  Git's encoder produces such streams for every source, target and index; with the index built for the
  source, no byte behind the first window is sent as a literal if the index offers a match for it, and
  it gives up only when such an encoding exceeds the bound. The diff-driven encoder is
  decoded back to the new data if and only if every copy of the plan its callbacks determine fits the
  operand bytes it writes: always for old data below 2^24 bytes, never for 2^24 bytes left unchanged.
- **Unified diff.** For every edit script and every context of at least one line the strict applier
  accepts the emitted hunks and rebuilds the new lines, if and only if neither side is empty or both
  are: an empty side gets a start the applier refuses. The applier itself accepts exactly the patches
  that are cut from some edit script between the two texts.
- **Pack collection.** The walk ends on every finite graph, cyclic trees included, and succeeds if and
  only if everything it needs is present and of the right kind; it then returns each needed object
  once: the least set closed under parents, trees, files and executables. An incremental pack holds exactly the difference of two such closures.
- **Push and fetch.** Whatever the repository answers and whatever format it reports after each await,
  every store, ref update, hook call and pack request begins while its format, the server's wire and
  local format and the zero ID agree, in the order of the request; a push or fetch succeeds if and
  only if the log of its calls says that it could go on everywhere. What the client then reads is said in
  the bytes of the protocol: `ok` or `ng` for each command as the repository answered, `ACK` or `NAK`.
- **Work stealing.** In every state of every interleaving each object has been taken once or has one
  owner; no run gets stuck or goes on for ever; a run that is over has taken every object exactly once.
- **Chain breaking.** Afterwards no chain is cyclic or longer than the limit, stored depths are true,
  and a chain that was finite has only been cut where the limit demands it. Every other removed link
  lay on a cycle, and each cycle lost at most one that way.
- **Index file.** Writing and reading are inverse up to the normalised `extended` flag, and any file the
  reader accepts can be written again and is read back to the same entries. The reader accepts exactly
  the files of a grammar: header, entries with any padding, optional extensions, checksum.
- **Canonical JSON.** Two values canonicalise to the same value if and only if they differ in key order
  only.

Conventions: a function or predicate is a specification, a method with a loop or a `modifies` clause is
the code, and each method is proved against such a specification. The repository behind the smart
protocol is a class whose answers and whose reported object format are arbitrary after every call; it
keeps its own log of what it was asked, what it answered and which format it reported before and after.
Hash functions, the Rabin polynomial, capability tokenisation and object storage are parameters.
`hide` statements only withhold definitions from a proof to keep it quick.

Where the code and its documentation or the standard part ways, the model follows the code:

- a length prefix may start with a plus sign and use upper-case digits, and `0004` counts as a flush (src/protocol/utils.rs:34-52);
- a fetch stops reading at the first flush, so haves sent behind the flush that ends the wants are never seen, although gitprotocol-pack(5), "Packfile Negotiation", puts them there (src/protocol/smart.rs:260-262);
- a `have` the repository does not know makes an incremental pack fail as soon as another one is known (src/protocol/pack.rs:111);
- the index reader honours the extended bit in a version-2 file, where a comment says it must be 0 (src/internal/index.rs:113, src/internal/index.rs:391), and never looks at the padding bytes;
- a copy is never split, so the diff-driven delta encoder loses copies of 2^24 bytes and more (src/delta/encode/mod.rs:110-126).

## Model

| member | source | states |
|---|---|---|
| DeltaFormat.ReadSizeIffSize | src/delta/utils.rs:19-41 | the size reader returns a value and a length if and only if the prefix is one varint of that value below 2^64; every wider value is rejected |
| DeltaFormat.SizeRoundTrip | src/delta/encode/mod.rs:221-236 | reading what the size writer wrote, with anything behind it, returns the number and stops behind it |
| DeltaFormat.HighBitsIgnored | src/delta/utils.rs:45-68 | a partial integer only depends on the flag bits that belong to it |
| DeltaFormat.ReadOpInverts | src/delta/decode/mod.rs:46-83 | an instruction that applies to the base is read back from its bytes, whatever follows |
| DeltaFormat.ReadOpsInverts | src/delta/decode/mod.rs:36-84 | a list of instructions written one after the other decodes to the concatenation of their meanings |
| DeltaFormat.DeltaDecodes | src/delta/decode/mod.rs:22-92 | two matching sizes followed by complete instructions decode to what the instructions denote |
| DeltaFormat.ReadingIsTheGrammar | src/delta/decode/mod.rs:22-92 | decoding succeeds with a result if and only if the stream is two in-range sizes matching base and result followed by valid instructions denoting the result |
| DeltaDecode.ReadSizeEncoding | src/delta/utils.rs:19-41 | the shifting loop reads exactly the varints that fit a usize, and where it stops |
| DeltaDecode.ReadPartialInt | src/delta/utils.rs:45-68 | the loop over present bits fails exactly when operand bytes are missing, and otherwise returns the value and the shifted flags |
| DeltaDecode.PrepareResultAppend | src/delta/decode/mod.rs:94-112 | an instruction is accepted if and only if the result stays within its declared size |
| DeltaDecode.ReadCopyOperands | src/delta/decode/mod.rs:63-73 | offset and size of a copy are those the flags and operands denote, a missing size meaning 0x10000 |
| DeltaDecode.ReadInstruction | src/delta/decode/mod.rs:38-83 | one instruction is read and carried out, or refused, exactly as the format says |
| DeltaDecode.DeltaDecode | src/delta/decode/mod.rs:22-92 | the decoding loop succeeds if and only if the stream decodes, with that result |
| DeltaEncode.DeltaDiff.Equal | src/delta/encode/mod.rs:145-166 | an equal run lengthens the copy it continues or becomes a new copy, and is counted; nothing else changes |
| DeltaEncode.DeltaDiff.Insert | src/delta/encode/mod.rs:168-211 | an inserted run becomes literals of 127 bytes and a rest, or joins the literal it continues while that stays below 127 bytes |
| DeltaEncode.EqualCovers | src/delta/encode/mod.rs:145-166 | an equal run extends what the plan rebuilds by its bytes, with continuing copies merged into one |
| DeltaEncode.InsertCovers | src/delta/encode/mod.rs:168-211 | an inserted run extends what the plan rebuilds by its bytes, with literals of 1 to 127 bytes |
| DeltaEncode.LiteralsFew | src/delta/encode/mod.rs:168-185 | a run becomes as few literals as can hold it |
| DeltaEncode.PlanCovers | src/delta/encode/mod.rs:145-211 | the plan of every valid callback sequence rebuilds the new data |
| DeltaEncode.PlanPacked | src/delta/encode/mod.rs:186-211 | in the plan of every script, neighbouring literals that continue each other have at least 127 bytes together, so a short run was joined wherever the code may join it |
| DeltaEncode.DeltaDiff.Encode | src/delta/encode/mod.rs:82-91 | the stream is both sizes and the encoded operations |
| DeltaEncode.EncodeDelta | src/delta/encode/mod.rs:42-91 | for every valid callback sequence the plan is the one the callbacks determine; the stream decodes to the new data if and only if every copy of that plan fits its operand bytes, for old data up to 2^32 bytes if and only if every copy is shorter than 2^24, and always while the old data is |
| DeltaEncode.WriteSizeEncoding | src/delta/encode/mod.rs:221-236 | the emitting loop writes the varint of the number |
| DeltaEncode.EncodeCopy | src/delta/encode/mod.rs:104-130 | a copy is written with the non-zero ones of four offset and three size bytes, and flags naming them |
| DeltaEncode.OnlyNonZero | src/delta/encode/mod.rs:110-126 | no operand byte that is written is zero, and there are as many as flags |
| DeltaEncode.EncodeDecodes | src/delta/encode/mod.rs:82-134 | the encoded stream decodes to the new data if and only if every copy is shorter than 2^24 and its offset, cut to 32 bits, leads to the same bytes |
| DeltaEncode.EncodeDecodesWithinBounds | src/delta/encode/mod.rs:110-126 | against old data of at most 2^32 bytes: if and only if every merged copy is shorter than 2^24 |
| DeltaEncode.LongCopyLost | src/delta/encode/mod.rs:110-126 | 16 MiB that did not change at all, reported as one equal run, are encoded to a stream that does not decode to them |
| GitDelta.HashRange | docs/gitc/diff-delta.c:476-482 | the byte loop computes the hash of the stretch it runs over |
| GitDelta.FindMatch | docs/gitc/diff-delta.c:376-401 | the candidate that is kept is a real match the format can express, never shorter than the one before; for a source below 2^32 bytes and a bucket in ascending order no entry with the hash matches longer, unless the match is good enough |
| GitDelta.ExtendBack | docs/gitc/diff-delta.c:417-432 | walking a match back over pending literals keeps it a match, takes back exactly the literals it covers, with the count slot when none is left, and stops only where the bytes differ or nothing is left to take |
| GitDelta.GitCopyMeaning | docs/gitc/diff-delta.c:434-467 | the copy instruction with zero bytes left out means the stretch of the source it was made from, 64 KiB included |
| GitDelta.PutLiteral | docs/gitc/diff-delta.c:403-412 | one more literal byte is pending, flushed as an instruction of 127 bytes exactly at 0x7f; what is written still denotes the target so far |
| GitDelta.PutMatch | docs/gitc/diff-delta.c:413-474 | a match becomes one copy of at most 64 KiB behind the literals it does not take back, the rest stays as candidate; what is written denotes the target so far |
| GitDelta.Search | docs/gitc/diff-delta.c:375-401 | rolling by one byte gives the hash of the next window, and fewer than four matching bytes are returned only if the index offers none at this position |
| GitDelta.Round | docs/gitc/diff-delta.c:375-498 | one round of the main loop adds a literal or a copy, keeps the encoding free of literals for which the index has a match, and leaves room for the next |
| GitDelta.Grow | docs/gitc/diff-delta.c:485-497 | the buffer always has room for the next instruction; giving up means that the bound is exceeded |
| GitDelta.CreateDelta | docs/gitc/diff-delta.c:319-510 | for every source, target and in-range index the first allocation has room for, a produced delta decodes to exactly the target and respects the size bound; with ascending buckets and a rolling hash no byte behind the first window that has an indexed match is left a literal; none is only possible for an empty target or when such an encoding exceeds the bound |
| GitDelta.RoomMostly | docs/gitc/diff-delta.c:336-340 | the first allocation has room for every size without a bound or with one of at least 9 bytes, and for sizes below 2^42 under every bound |
| DeltaIndexing.HashSize | docs/gitc/diff-delta.c:151-162 | the table size is the smallest power of two from 16 on that is not below a quarter of the entries |
| DeltaIndexing.Populate | docs/gitc/diff-delta.c:183-204 | the bucket lists are linked, disjoint, in falling order and hold each block under its own hash; every block has an entry of its hash at or below it in its bucket; the count is the number of nodes |
| DeltaIndexing.CullBucket | docs/gitc/diff-delta.c:218-254 | a list of more than 64 nodes is culled in exactly 64 rounds without following a null link, with the accumulator back at 0, to the evenly spaced 64 nodes |
| DeltaIndexing.CullAll | docs/gitc/diff-delta.c:218-254 | every bucket is left alone or culled, and the adjusted count is the number of nodes still linked |
| DeltaIndexing.Pack | docs/gitc/diff-delta.c:281-292 | the packed array holds the buckets one after the other, delimited by the start table |
| DeltaIndexing.CreateDeltaIndex | docs/gitc/diff-delta.c:135-298 | the packed count equals the counter, no bucket exceeds 64 entries, every entry is an in-range position stored under the hash of the block in front of it, positions ascend in each bucket, and every block of the source is offered by its bucket unless that is full |
| DeltaIndexing.Deltify | docs/gitc/diff-delta.c:135-510 | index and encoder together: any delta produced for a source and a target decodes to the target and leaves no byte with an indexed match a literal; there is none only for lack of input or when such an encoding exceeds the bound |
| UnifiedDiff.FlushHunk | src/diff.rs:385-485 | the printed hunk has the numbers and counts of its lines and up to `context` trailing equal lines, and the last equal lines become the next prefix |
| UnifiedDiff.ComputeUnifiedDiff | src/diff.rs:291-382 | for every script and every context of at least 1 the hunks are those of the maximal stretches within `context` lines of a change, one each and in order |
| UnifiedDiff.CoveredIffInSpans | src/diff.rs:318-333 | a script position is printed if and only if a change lies within `context` positions of it |
| UnifiedDiff.ZeroCountMeansEmptySide | src/diff.rs:399-444 | a hunk count is zero only when that whole side is empty |
| PatchApply.HunksApply | src/diff.rs:545-718 | from any hunk on, the strict applier accepts the rest and appends exactly the rest of the new lines |
| PatchApply.RoundTrip | src/diff.rs:291-485 | the strict applier accepts the hunks and rebuilds the new lines if and only if neither side is empty or both are |
| PatchApply.DiffAndApply | src/diff.rs:545-718 | for every script and every context of at least 1 the assembler's hunks, given to the strict applier, bring back the new lines if and only if neither side is empty or both are |
| PatchApply.EmptySide | src/diff.rs:441-444 | with exactly one side empty there is exactly one hunk, both sides said to start at line 1, and the applier refuses it; with both empty there is none and the applier returns the empty text |
| PatchApply.AcceptedIff | src/diff.rs:545-718 | the strict applier turns old lines into new ones if and only if the hunks are cut from an edit script between them: in order, with true starts and counts on both sides, and only equal lines left out |
| PatchApply.GapsAreEqual | src/diff.rs:318-339 | between hunks, before the first and after the last only equal lines are skipped |
| PatchApply.ContextBounded | src/diff.rs:394-398 | leading and trailing context of a hunk is at most `context` lines |
| PatchApply.SplitIffGapTooLong | src/diff.rs:320-333 | neighbouring changes end up in different hunks if and only if more than `2 * context` equal lines separate them |
| PackCollect.CollectTree | src/protocol/pack.rs:263-316 | the recursive walk adds exactly the trees and blobs reachable from the tree and not visited before, each once, or meets a bad object below it |
| PackCollect.VisitCommit | src/protocol/pack.rs:205-247 | a commit is listed, its tree walked and its unseen parents queued |
| ObjectGraph.NeededIsClosed | src/protocol/pack.rs:226-246 | what is needed contains the starting commits, the parents and tree of each of its commits, and of each of its trees the subtrees, files and executables |
| ObjectGraph.NeededIsLeast | src/protocol/pack.rs:282-312 | every set closed in that way contains all that is needed, so nothing else is sent |
| ObjectGraph.GoodIff | src/protocol/pack.rs:221-228 | the collection is good if and only if all that is needed is there and every ID in it, those of skipped entries included, is of the repository's kind |
| PackCollect.CollectAll | src/protocol/pack.rs:189-250 | collection succeeds if and only if every needed object is present and of the right kind, and then lists exactly the needed commits, trees and blobs, each once |
| PackCollect.FilteredIsMissing | src/protocol/pack.rs:319-351 | filtering leaves exactly the wanted objects that are not had, in order |
| PackCollect.IncrementalObjects | src/protocol/pack.rs:100-117 | collection of the difference succeeds if and only if both closures are complete, and returns the objects of the first that are not in the second |
| PackCollect.GeneratePackStream | src/protocol/pack.rs:355-401 | a foreign entry is refused before the first byte; without objects the stream is a zero-object pack with its digest; otherwise every entry goes to the encoder, commits first |
| PackCollect.GenerateIncrementalPack | src/protocol/pack.rs:100-117 | an incremental pack fails if and only if one of the closures is not all there or not of one kind; otherwise nothing is refused, the stream is a zero-object pack if and only if everything reachable from `want` is reachable from `have`, and the encoder gets exactly the objects reachable from `want` and not from `have`, each once |
| DeltaChains.PackingList.DropReusedDelta | docs/gitc/pack-objects.c:2432-2466 | the object loses its base and its depth, and the child lists again hold exactly the objects stored against their head |
| DeltaChains.Unlink | docs/gitc/pack-objects.c:2439-2446 | following the links redirects the one that leads to the entry and leaves all other lists alone |
| DeltaChains.PackingList.Descend | docs/gitc/pack-objects.c:2487-2542 | the first pass ends at a finished object, having cut only a link that closes a cycle; the path behind it is active and counted |
| DeltaChains.PackingList.Settle | docs/gitc/pack-objects.c:2551-2589 | the second pass gives every object of the path its final depth and leaves no object active |
| DeltaChains.CycleFaithful | docs/gitc/pack-objects.c:2536-2541 | an object whose link leads back onto its own path never had a finite chain |
| DeltaChains.CycleJustified | docs/gitc/pack-objects.c:2536-2541 | the link that is cut lies on a cycle that has not lost a link before |
| DeltaChains.PackingList.BreakDeltaChains | docs/gitc/pack-objects.c:2476-2590 | afterwards the object is finished, everything finished before still is, and finished objects are settled |
| DeltaChains.PackingList.BreakAll | docs/gitc/pack-objects.c:2622-2623 | no chain is cyclic or longer than the limit, each stored depth is the real chain length, an object `k` steps from its base ends up at depth `k % (limit + 1)`, links are only removed below an object at the limit or on a cycle, and at most one of each cycle for the latter reason |
| DeltaChains.ChainLengthUnique | docs/gitc/pack-objects.c:2476-2590 | an object has at most one chain length, so the stored depth is the chain length |
| DeltaSearch.Partition | docs/gitc/pack-objects.c:3202-3228 | the slots tile the list; each inner cut is the first path boundary at or behind the slot's share, and small shares are left to the last slot |
| DeltaSearch.SeekBoundary | docs/gitc/pack-objects.c:3216-3220 | the loop stops at the first path boundary or at the end |
| DeltaSearch.PickVictim | docs/gitc/pack-objects.c:3266-3269 | the victim is the first worker with most left, if that is more than twice the window |
| DeltaSearch.StartKeeps | docs/gitc/pack-objects.c:3202-3241 | after the partition and the start of the threads the invariant holds |
| DeltaSearch.StepKeeps | docs/gitc/pack-objects.c:3147-3311 | every step of every thread keeps the invariant: each object is taken once or owned by one worker, and main thread and workers agree |
| DeltaSearch.AccountedHand | docs/gitc/pack-objects.c:3270-3294 | cutting a worker's list hands every object to exactly one of the two |
| DeltaSearch.RunKeeps | docs/gitc/pack-objects.c:3184-3311 | the invariant holds after every run |
| DeltaSearch.OwnersDisjoint | docs/gitc/pack-objects.c:2964-2980 | an owned object has one owner and has not been taken |
| DeltaSearch.NeverStuck | docs/gitc/pack-objects.c:3147-3182 | until the main thread is done some thread can move without a spurious wake-up |
| DeltaSearch.StepDecreases | docs/gitc/pack-objects.c:3147-3311 | every step but a spurious wake-up brings the search closer to its end |
| DeltaSearch.RunsEnd | docs/gitc/pack-objects.c:3251-3308 | a run has no more steps than the measure of its first state |
| DeltaSearch.FinishedTookAll | docs/gitc/pack-objects.c:3251-3308 | when the main thread is done every object has been taken exactly once |
| DeltaSearch.SearchTakesAll | docs/gitc/pack-objects.c:3184-3311 | from the partition on, under every interleaving: at most `20 * n + 7 * k + 1` steps, and a run that cannot go on has taken every object exactly once |
| DeltaSearch.Search.constructor | docs/gitc/pack-objects.c:3200-3241 | the search starts partitioned, counted and within the invariant |
| DeltaSearch.Search.WorkerStep | docs/gitc/pack-objects.c:3147-3182 | each critical section of a worker is the step of the state machine it stands for |
| DeltaSearch.Search.Balance | docs/gitc/pack-objects.c:3256-3295 | the section that finds an idle worker and gives it a tail is such a step |
| DeltaSearch.Search.Follow | docs/gitc/pack-objects.c:3297-3307 | so are waking the worker and joining it |
| DeltaSearch.Search.FindCut | docs/gitc/pack-objects.c:3270-3287 | the cut is the first path boundary of the second half, or exactly its middle when there is none |
| PktLine.FrameReads | src/protocol/utils.rs:13-76 | reading a written line returns payload and rest if and only if the length fits four digits |
| PktLine.FlushReads | src/protocol/utils.rs:43-46 | a flush reads like a line without payload |
| PktLine.OnlyDigits | src/protocol/utils.rs:34-40 | a byte is a digit of a length if and only if it is one of `0-9`, `a-f` and `A-F` |
| PktLine.Cursor.ReadPktLine | src/protocol/utils.rs:13-66 | a line is taken off the front, or nothing is consumed |
| PktLine.Cursor.ReadUntilWhiteSpace | src/protocol/utils.rs:80-96 | a word and its separator are taken off; a word that is not UTF-8 becomes empty |
| PktLine.FramesRead | src/protocol/utils.rs:13-76 | a list of non-empty lines and the flush behind it are read back, and nothing beyond |
| PktLine.BuildSmartReply | src/protocol/utils.rs:101-117 | the reply is the announcement, over HTTP, and the framed lines, each group closed by a flush |
| PktLine.SmartReplyReads | src/protocol/utils.rs:101-117 | a smart reply parses back to its lines, over HTTP behind `# service=` and the name of the service |
| PktLine.BuildSideBandPackets | src/protocol/core.rs:388-409 | a chunk is cut into framed band-1 pieces of 1 to `max` bytes that concatenate to it |
| PktLine.SideBandStream | src/protocol/core.rs:322-336 | the stream is the framed pieces of all chunks and `0000`; for either limit it carries the bytes of the chunks in band-1 packets of at most 1000 or 65520 bytes |
| PktLine.SideBandReads | src/protocol/core.rs:322-336 | for either limit, reading the stream until its flush yields band-1 packets within the limit and the bytes that were sent |
| SmartRequests.CommandReads | src/protocol/smart.rs:606-620 | a well-formed command is read back from its line, whatever separator follows |
| SmartRequests.CommandIff | src/protocol/smart.rs:606-620 | a line is taken for a command if and only if it is two plain IDs of the format and a ref name in UTF-8, each ended by white space or NUL |
| SmartRequests.ScanOkIff | src/protocol/smart.rs:571-590 | capabilities are accepted if and only if none is `object-format=` with another name than that of the repository's format |
| SmartRequests.ScanRecords | src/protocol/smart.rs:589-598 | of accepted capabilities exactly the object format and the known ones are recorded |
| SmartRequests.PushLines | src/protocol/smart.rs:361-378 | each command of a push is taken, with the capabilities behind the first NUL of the first line only; a line that is no command or names a foreign format there makes the request fail |
| SmartRequests.FlushBeforePack | src/protocol/smart.rs:411-451 | a pack is only taken from behind a flush |
| SmartRequests.RequestReads | src/protocol/smart.rs:402-451 | commands, capabilities and every byte of the pack are recovered if and only if no capability names another object format |
| SmartRequests.UploadRequestReads | src/protocol/smart.rs:253-290 | wants, haves and capabilities of a fetch sent in one go are recovered |
| SmartRequests.KnownLines | src/protocol/smart.rs:268-285 | wherever they stand, `done` ends the request, and `have` and `want` with a plain ID add it in front of what follows |
| SmartRequests.UnknownIgnored | src/protocol/smart.rs:286-288 | a line that starts with none of `want`, `have` and `done` has no effect |
| SmartRequests.BadIdRefused | src/protocol/smart.rs:268-282 | a `want` or `have` with anything but an ID of the format makes the fetch fail |
| SmartRequests.NothingBehindFlush | src/protocol/smart.rs:260-262 | nothing behind the first flush of a fetch has any effect |
| SmartProtocol.Server.constructor | src/protocol/smart.rs:65-78 | a new server is bound consistently |
| SmartProtocol.Server.EnsureHashKindConsistency | src/protocol/smart.rs:88-109 | the check passes if and only if repository, local and wire format agree and the zero ID is theirs |
| SmartProtocol.HeldIsAgreed | src/protocol/smart.rs:88-109 | the binding holds if and only if the three formats are one and the zero ID is 40 or 64 zero digits |
| SmartProtocol.GuardedAgree | src/protocol/smart.rs:453-535 | in every run a store, ref update, hook or pack request begins while formats and zero ID agree |
| SmartProtocol.Server.ParseCapabilities | src/protocol/smart.rs:567-599 | capabilities are recorded up to the first foreign object format; wire kind and zero ID never change |
| SmartProtocol.Server.ParseRefCommand | src/protocol/smart.rs:606-620 | the command is the one on the line, or refused |
| SmartProtocol.Server.ParseReceivePackCommands | src/protocol/smart.rs:349-381 | the commands and capabilities are those of the request, without changing wire kind or zero ID |
| SmartProtocol.Server.ParseStream | src/protocol/smart.rs:402-451 | the same commands, and the exact bytes behind the first flush as pack; anything else is refused |
| SmartProtocol.Server.ParseUploadRequest | src/protocol/smart.rs:253-290 | the loop recovers what the negotiation says |
| SmartProtocol.Server.FindCommon | src/protocol/smart.rs:309-320 | the repository is asked about every have in order until it fails to answer; exactly those it answered yes to are acknowledged, in order, and the first is remembered |
| SmartProtocol.Server.AskForPack | src/protocol/smart.rs:299-341 | with nothing in common the full pack is asked for behind a `NAK`, otherwise the incremental one behind the acknowledgements |
| SmartProtocol.CommonAt | src/protocol/smart.rs:309-320 | the acknowledged IDs are the haves answered yes, in order |
| SmartProtocol.ReplyReads | src/protocol/smart.rs:296-337 | a client reads one `ACK <id> common` for every have answered yes and `ACK <first of them> ready`, or `NAK` alone when none was |
| SmartProtocol.Server.GitUploadPack | src/protocol/smart.rs:238-342 | the repository is asked about every have and then for the pack its own answers call for, begun while its format, the wire and local format and the zero ID agree; the fetch succeeds if and only if the request can be read, everything is answered and the binding holds at the start, before the pack and after it |
| SmartProtocol.Server.UpdateOne | src/protocol/smart.rs:491-525 | one command becomes one ref update with a zero old ID as none, and the first branch of an empty repository its default |
| SmartProtocol.Server.UpdateReferences | src/protocol/smart.rs:473-528 | every command up to a failed check is handed over while repository, wire, local format and zero ID agree, and reported in order with the repository's answer |
| SmartProtocol.Server.StorePack | src/protocol/smart.rs:453-471 | a pack is unpacked, then stored while the binding holds; both succeed if and only if the repository answers so and the binding holds in between |
| SmartProtocol.Server.CarryOut | src/protocol/smart.rs:453-540 | objects, default branch, commands and hook are asked for in that order, the changes under the server's binding; a report is made if and only if every event lets the push go on |
| SmartProtocol.JoinedIsAll | src/protocol/smart.rs:392-400 | the request is all its chunks one after the other, and is lost if and only if one of them is broken |
| SmartProtocol.PushCalls | src/protocol/smart.rs:453-535 | call by call: unpack and store when there is a pack, the default branch, one update for each command, the hook |
| SmartProtocol.ZeroMeansNew | src/protocol/smart.rs:494-498 | the old ID of an update is left out if and only if it is all zeros |
| SmartProtocol.ReportReads | src/protocol/types.rs:391-400 | a client reads `unpack ok`, then for each command `ok <ref>` when the repository took the update and `ng <ref> <text>` with its words when it did not, then the flush and nothing more |
| SmartProtocol.Server.GitReceivePackStream | src/protocol/smart.rs:384-541 | in every run the repository is asked for what the request says, in that order, and every call that changes it begins while its format, the wire and local format and the zero ID agree; the push succeeds if and only if the binding holds at the start, the request can be read and every event lets it go on, and the report then names each command once, in order, with the repository's answer |
| IndexFile.FlagsRoundTrip | src/internal/index.rs:124-204 | flags are read back with `extended` normalised if and only if the stage is at most 3 |
| IndexFile.PaddingAligns | src/internal/index.rs:514-519 | an entry takes a multiple of eight bytes and ends in one to eight NULs |
| IndexFile.EntryRoundTrip | src/internal/index.rs:485-519 | a well-formed entry is read back, whatever follows |
| IndexFile.EntryReadWell | src/internal/index.rs:376-414 | whatever is read is well formed and normalised |
| IndexFile.InsertIsUpdate | src/internal/index.rs:630-633 | inserting keeps the order of the map and changes it at one key |
| IndexFile.DeleteIsRemoval | src/internal/index.rs:635-637 | deleting keeps the order and removes one key |
| IndexFile.IndexRoundTrip | src/internal/index.rs:364-447 | reading a written file returns the same entries normalised, whatever optional extensions were inserted |
| IndexFile.VersionIs | src/internal/index.rs:470-482 | the version field of a written file is 3 if and only if some entry is extended, and 2 otherwise |
| IndexFile.WrittenIsFile | src/internal/index.rs:457-530 | the writer's output is the file without extensions |
| IndexFile.RewriteIdentical | src/internal/index.rs:457-530 | writing the entries read back gives the same bytes |
| IndexFile.AcceptedCanBeRewritten | src/internal/index.rs:364-447 | any accepted file can be written again and is read back to the same entries |
| IndexFile.AcceptedIsSound | src/internal/index.rs:332-349 | an accepted file starts with `DIRC` and version 2 or 3, has as many entries with different keys as its header says, only extensions with an upper-case first letter, and a checksum that is the digest of all bytes before it |
| IndexGrammar.AcceptsTheGrammar | src/internal/index.rs:364-447 | a file is read to these entries if and only if it is a header, well-formed entries with any padding and different keys, optional extensions and the digest of all that, and the entries are those, in order; the reader panics if and only if the same holds but for two entries with one key |
| IndexFile.StatLayout | src/internal/index.rs:376-384 | the ten numbers of an entry lie big-endian at bytes 0 to 39, in the order of gitformat-index(5) |
| IndexFile.FlagsLayout | src/internal/index.rs:124-135 | the flags word is one bit for assume-valid, one for extended, two for the stage and twelve for the length |
| IndexFile.ExtendedLayout | src/internal/index.rs:180-194 | the extended word is bit 14 for skip-worktree and bit 13 for intent-to-add; any other bit is refused |
| IndexFile.KeyOrder | src/internal/index.rs:630-633 | entries are ordered by name, byte by byte, and by stage within one name |
| IndexStore.Reader.ReadOneEntry | src/internal/index.rs:376-414 | the field-by-field reader accepts exactly the entries of the format |
| IndexStore.Reader.SkipAll | src/internal/index.rs:417-437 | the extension loop skips optional extensions up to the checksum and refuses all others |
| IndexStore.FromFile | src/internal/index.rs:364-447 | the reader accepts, refuses or panics exactly as specified |
| IndexStore.Index.Add | src/internal/index.rs:630-633 | the map is updated at the entry's name and stage |
| IndexStore.Index.Remove | src/internal/index.rs:635-637 | the map loses that name and stage, and the entry that was there is returned |
| IndexStore.Index.ToFile | src/internal/index.rs:457-530 | an entry of another kind leaves the file untouched; one that cannot be packed leaves the header and the entries in front of it; otherwise the specified file is written |
| PackIdx.WriteFanOut | docs/gitc/pack-write.c:108-123 | the slice of byte `b` holds exactly the objects whose ID starts with `b` |
| PackIdx.WriteOffsets | docs/gitc/pack-write.c:150-173 | every object resolves through the two tables to its true offset, and the second is used exactly for offsets that need it |
| PackIdx.WriteLarge | docs/gitc/pack-write.c:162-172 | the walk that writes the large offsets never leaves the list and writes all of them, in order |
| PackIdx.PickVersion | docs/gitc/pack-write.c:68-98 | the requested version is used unless the largest offset needs the large table; under version 1 every offset fits in 31 bits and the limit |
| CanonicalJson.CanonIffSame | src/internal/object/integrity.rs:103-122 | two values canonicalise to the same value if and only if they differ in key order only, at any depth |
| CanonicalJson.CanonKeeps | src/internal/object/integrity.rs:103-122 | no key, value or array position is lost, and keys ascend in every object |
| CanonicalJson.CanonIdempotent | src/internal/object/integrity.rs:103-122 | canonicalising twice changes nothing more |
| CanonicalJson.Canonicalize | src/internal/object/integrity.rs:103-122 | sorting the members and rewriting the values one by one computes the canonical value |
| ByteOrder.LessIff | src/internal/object/integrity.rs:112 | keys are compared by their first differing byte, a proper prefix coming first |
| Encoding.Utf8IsEncoded | src/protocol/utils.rs:89-95 | accepted text is the encoding of a sequence of Unicode scalar values |
| Encoding.EncodedIsUtf8 | src/protocol/utils.rs:89-95 | every such encoding is accepted |

## Left out

- UnifiedDiff.ComputeUnifiedDiff: says nothing about context 0, where the prefix window grows without bound (src/diff.rs:334-337); the only caller passes 3.
- Rendering hunks as text, the markers for a missing final newline, and the line operations of `compute_line_operations`: the hunks are data, and lines carry no terminators.
- Myers and patience line diffs are foreign code; every edit script between two sides is covered instead.
- PatchApply.DiffAndApply: says nothing about context 0, as above.
- GitDelta.CreateDelta: says nothing about sizes of 2^42 bytes and more under a bound below 9 bytes, for which the first buffer can be too short, nor about allocation failure; the output buffer is a sequence of the allocated length, and every write is proved to stay within it.
- GitDelta.Search: takes it from the Rabin tables that rolling by one byte agrees with hashing the window afresh; the tables themselves are not modelled.
- DeltaIndexing.Deltify: has the same limits as the encoder it calls.
- DeltaDecode.DeltaDecode: does not model the allocation failure of the result buffer.
- PackCollect.CollectAll: does not model the repository changing between two reads; an object read under an ID is the object of that ID.
- DeltaSearch.Search.WorkerStep: does not model the delta window itself, only which objects are taken; a section under one lock is one step.
- SmartProtocol.Server.GitReceivePackStream: does not model the error texts, nor what is left in the command list when the check fails between two updates.
- SmartRequests.RequestReads: does not model how capability text is split into words; any splitting is allowed.
- Ref advertisement (`git_info_refs`), authentication and the HTTP and SSH adapters: plumbing around the codec.
- Pack encoding and decoding, the Rust Rabin encoder, zstd deltas, caches and wait lists: they call code that is not part of this model.
- `remove_dir_files`, `refresh` and file metadata: they depend on paths and the operating system.
- The byte layout of a pack index, its checksums and CRC table: only the tables are modelled, as numbers; the objects are taken to be sorted.
- SHA-1, SHA-256, BLAKE3 and zlib: a digest is any function of the right width.
- AI workflow objects, thread-local hash kinds and tagged IDs: accessors and formatting only.
