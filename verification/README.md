# Verified kernels of CybouDB

A Dafny model of parts of CybouDB whose promises are hard to check by example: the ChaCha20 and Poly1305 kernels behind encrypted pages, the ready-at tree that finds a claimable queue message, the leases of the engine's queue, the commit protocol of an encrypted file, the page caches, and three small kernels of the tests and benchmarks. `dafny verify dfyconfig.toml` checks all of it.

| files | models |
|---|---|
| `Bits`, `Endian`, `Wrappers` | machine words, shifts and masks, little-endian numbers, optional values |
| `Poly1305Spec`, `Poly1305Limbs26`, `Poly1305Limbs44`, `Poly1305FourChain` | section 2.5 of RFC 8439 and the three implementations of it |
| `CounterMode`, `ChaCha20Spec`, `ChaCha20Bytes`, `ChaCha20KnownAnswer`, `ChaCha20`, `ChaCha20Vector` | sections 2.1 to 2.4 of RFC 8439, the block of section 2.3.2, and the five drivers |
| `QueueSlots`, `ReadyLeaves`, `ReadySearch`, `ReadyTree` | the naive walk over the queue and the tree that replaces it |
| `LeaseQueue` | push, claim, acknowledge, hand back, renew and commit in the engine |
| `SealedPages`, `CommitProtocol` | the sealed pages of a generation, commits, crashes and recovery |
| `ClockHand`, `PageCache`, `Xorshift` | the plaintext cache of the encrypted I/O spike |
| `CachePolicy`, `SetCache` | the cache shape probe under LRU, clock and probation |
| `ShiftRegister`, `Crc32c` | CRC-32C and the seals built on it |
| `ForPacker`, `Shuffle` | the frame-of-reference packer and the shuffled row order |

## Reading the model

Code that updates things in place is a class or a method on arrays here, proved against a function that says what it computes. Fixed-width arithmetic is written out: naturals with `Wrap32` and `Wrap64` where the proofs are about sums and products, bit-vectors where they are about rotations and XOR. The reference definitions (`Poly1305Spec`, `ChaCha20Spec`, `Ready`, `IsFirstClaimable`, `IsRecovered`, `MostRecent`, `Total`) say what is wanted without the algorithms proved against them. What the two sides share are primitives: little-endian loads and stores, the padding of a last block, word addition and XOR, one step of a keystream. What those are is stated apart, as numbers, as bits and by the answers the RFC gives (`ChaCha20Bytes`, `ChaCha20KnownAnswer`, `Xorshift`). `Recover` is `IsRecovered` as a function, with a proof that they are the same, so that the theorems about runs can name the answer.

The MACs, the AEAD and the page checksum of `SealedPages` are parameters of which only this is assumed: a sealed page opens again, and the outputs have their sizes. Crash safety asks one thing more of the superblock tag, and only when a superblock write tears: a mix of two superblocks that verifies agrees with one of them in the tagged bytes (`TearProof`). That a superblock vouches for one content (`OneContent`) is stated for pages that do not collide. The contents of a file, the nonces and what a failed read leaves behind are parameters too.

## Where the code does not keep the plain statement

- A push in the engine writes a free message into the last segment and leaves that segment's summary as it is. After the messages of a segment have been claimed, the search skips the new one and a commit refuses the queue. `StepTrustedIff` states the exact condition, `HiddenMessageExample` shows it.
- A push also puts the claim cursor back to the head. An acknowledgement that then moves the head leaves the cursor behind it, which a commit refuses. `PassesCursor` is the exact condition, by `StepOrderedIff`, and `CursorExample` shows it.
- A claim or a renewal refused because its deadline does not fit into 64 bits has made its pages writable by then and seals neither, so that the next commit of the transaction refuses. The claim has also raised the token of the message, and with it ended the ticket of whoever held it. `Overruns` is the condition, `StepSealedIff`, `RefusedAloneIff` and `TicketStep` say what follows, `RefusedClaimExample` and `RefusedRenewalExample` show it.
- A segment that starts at 2^64 - 16 has an end that wraps, so that the tree takes it for empty. `Reach` stops there, `Scan` says when the answer is the walk's all the same, `FreeIsExact` what it means for enqueueing and handing back, and `WrapExample` shows it. In the engine the search that is told to skip this segment goes on at position 46, below the head: `StepsBack` says when, `StepsBackExample` shows it.
- A scan at the largest 64-bit time takes every segment for ready and looks at the first one only. `Reach` and `Scan` cover it, `NeverExample` shows it.
- The slot count of the I/O spike's cache is a 32-bit product that overflows above 2^28 sets (`Geometry`, `TooManyExample`).
- In that cache the tag of page 2^64 - 1 is the tag of an empty slot (`Probe`, `LastPageExample`), and a failed read can leave a tagged slot with other bytes (`Get`, `FailedReadExample`).
- In the shape probe's cache page 2^64 - 1 is the mark of an empty slot, and stamps start again at zero after 2^64 touches; `GetLru` and `ProbationMiss` state what is left of the policies then, `EmptyMarkExample`, `WrappedStampExample` and `LastStampExample` show it.
- A superblock that verifies and names a superblock page as evidence makes the reader depend on bytes behind a tag. No generation built by the program has one (`OnlyTaggedBytesMatter`, `SelfNamedExample`).

Two properties of a valid queue are used as such. A free message carries no deadline: the state table says so (docs/QUEUE.md:611) and the validator refuses anything else (tests/lease_state_test.c:214-215). Every live position has a slot: the address of a segment page is its number shifted and added to the base, and never null (src/core/queue.asm:55-60). `ReadyLeaves` calls them `Clean` and `Mapped`, states each operation on the tree without them, and proves that with them every operation keeps the tree exact. The comment on the tree speaks of at most 495 live segments; the proofs need at most 512.

## Model

| member | source | states |
|---|---|---|
| `Poly1305Limbs26.Mac` | benchmarks/crypto_probe.c:488-623 | For every key and every way of cutting a message into updates, init, update and finish return the tag of section 2.5.1 of RFC 8439 for the whole message. |
| `Poly1305Limbs26.Context.constructor` | benchmarks/crypto_probe.c:488-501 | A fresh context stands for the empty message; r is the clamped key and s the pad. |
| `Poly1305Limbs26.LoadKey` | benchmarks/crypto_probe.c:489-493 | The five masked, overlapping loads are the number section 2.5 of RFC 8439 gets by clamping the key bytes. |
| `Poly1305Limbs26.LoadBlockValue` | benchmarks/crypto_probe.c:513-519 | The five overlapping loads cut sixteen bytes into limbs that stand for the little-endian block plus the marker bit. |
| `Bits.WordIsShiftsAndOrs` | benchmarks/crypto_probe.c:483-486 | The shift-or load is the little-endian number of the four bytes. |
| `Poly1305Limbs26.CarryStep` | benchmarks/crypto_probe.c:532-538 | With any carry a reachable state can produce, no bit of the 64-bit sum or of the 32-bit carry is lost. |
| `Poly1305Limbs26.RowOf` | benchmarks/crypto_probe.c:521-530 | A row of five products stays within 64 bits for every multiplicand a reachable state can hold. |
| `Poly1305Limbs26.Multiply` | benchmarks/crypto_probe.c:521-538 | Twenty-five products and a delayed carry multiply modulo 2^130 - 5 and leave limbs within the bounds the next block may start from. |
| `Poly1305Limbs26.Block` | benchmarks/crypto_probe.c:511-542 | One turn of the block loop is one step of the message polynomial on residues. |
| `Poly1305Limbs26.Context.Blocks` | benchmarks/crypto_probe.c:503-544 | The block loop absorbs every whole block, with the marker bit unless the context is final. |
| `Poly1305Limbs26.Context.Update` | benchmarks/crypto_probe.c:546-568 | An update extends the absorbed message by exactly its bytes, whatever the buffer held before. |
| `Poly1305Limbs26.FullCarry` | benchmarks/crypto_probe.c:582-588 | A single carry pass leaves limbs of 26 bits each, congruent to the accumulator. |
| `Poly1305Limbs26.Freeze` | benchmarks/crypto_probe.c:590-603 | The masked subtraction yields the least residue modulo 2^130 - 5. |
| `Poly1305Limbs26.Pack` | benchmarks/crypto_probe.c:605-608 | The shifted limbs do not overlap; the four words are the value modulo 2^128. |
| `Poly1305Limbs26.AddPad` | benchmarks/crypto_probe.c:610-613 | The carry chain adds the pad modulo 2^128. |
| `Poly1305Limbs26.Context.Finish` | benchmarks/crypto_probe.c:570-623 | Finish returns the tag of everything absorbed. |
| `Poly1305Limbs44.Mac` | benchmarks/crypto_probe.c:685-800 | The 44-bit implementation returns the same RFC 8439 tag for every key and every chunking, so it agrees with the 26-bit one on all inputs. |
| `Poly1305Limbs44.LoadKey` | benchmarks/crypto_probe.c:685-695 | Clamping two 64-bit words limb by limb is clamping the key bytes. |
| `Poly1305Limbs44.Split` | benchmarks/crypto_probe.c:703-709 | Two words and the marker bit are cut into limbs of 44, 44 and 42 bits without loss. |
| `Poly1305Limbs44.RowOf` | benchmarks/crypto_probe.c:711-716 | A row of three products stays within 128 bits. |
| `Poly1305Limbs44.Carry` | benchmarks/crypto_probe.c:718-725 | The delayed carry keeps the value modulo 2^130 - 5 and restores the limb bounds. |
| `Poly1305Limbs44.FeMul` | benchmarks/crypto_probe.c:828-848 | The field multiplication is multiplication modulo 2^130 - 5 for every operand the callers can pass. |
| `Poly1305Limbs44.Context.constructor` | benchmarks/crypto_probe.c:685-695 | A fresh context stands for the empty message under the key. |
| `Poly1305Limbs44.Context.Blocks` | benchmarks/crypto_probe.c:697-731 | The block loop absorbs every whole block. |
| `Poly1305Limbs44.Context.Update` | benchmarks/crypto_probe.c:733-752 | An update extends the absorbed message by exactly its bytes. |
| `Poly1305Limbs44.Context.Finish` | benchmarks/crypto_probe.c:754-800 | Finish returns the tag of everything absorbed. |
| `Poly1305Limbs44.Pass` | benchmarks/crypto_probe.c:765-772 | One carry pass already makes every limb canonical; the second pass changes nothing it needs to. |
| `Poly1305Limbs44.Freeze` | benchmarks/crypto_probe.c:774-783 | The masked subtraction yields the least residue. |
| `Poly1305Limbs44.AddPad` | benchmarks/crypto_probe.c:785-791 | The pad is added modulo 2^130, which agrees with the sum modulo 2^128. |
| `Poly1305Limbs44.Pack` | benchmarks/crypto_probe.c:793-794 | The two packed words are the value modulo 2^128. |
| `Poly1305FourChain.Mac` | benchmarks/crypto_probe.c:852-968 | Four accumulators stepped by r^4, combined with r^4, r^3, r^2 and r, and a serial tail give the RFC 8439 tag for every key and every message. |
| `Poly1305FourChain.AbsorbFour` | benchmarks/crypto_probe.c:810-821 | Four serial Horner steps are one step of the polynomial in r^4, modulo 2^130 - 5. |
| `Poly1305FourChain.AdvanceCongruent` | benchmarks/crypto_probe.c:810-821 | Advancing each chain by r^4 and its own block advances what the chains combine to by four blocks. |
| `Poly1305FourChain.ComputePowers` | benchmarks/crypto_probe.c:865-867 | The three multiplications give r^2, r^3 and r^4 modulo 2^130 - 5. |
| `Poly1305FourChain.Group` | benchmarks/crypto_probe.c:873-889 | After a group of 64 bytes the chains combine to the serial accumulator after those four blocks. |
| `Poly1305FourChain.Combine` | benchmarks/crypto_probe.c:891-905 | The final combination is congruent to the serial accumulator, with limbs a further block may start from. |
| `Poly1305FourChain.Serial` | benchmarks/crypto_probe.c:907-936 | The tail of whole and partial blocks continues the serial evaluation to the end of the message. |
| `Poly1305Spec.DigestTagIsTag` | benchmarks/crypto_probe.c:474-476 | Whole blocks first and a padded rest is the block sequence of section 2.5.1 of RFC 8439. |
| `ChaCha20Vector.XorWith` | benchmarks/crypto_probe.c:110-470 | Each of the five drivers changes any buffer to the keystream XOR of RFC 8439, for every key, nonce, length and counter, wrap of the counter included; so all five agree byte for byte. What that stream is byte by byte, `StreamByte` says, and `KnownBlock` is the block the RFC works out. |
| `ChaCha20Bytes.StreamByte` | benchmarks/crypto_probe.c:147-159 | Byte i of the result is byte i of the buffer XOR byte i mod 64 of the block whose counter is the given one plus i / 64, modulo 2^32. |
| `ChaCha20Bytes.LoadValue` | benchmarks/crypto_probe.c:117-125 | A word of key or nonce is its four bytes as a number, the first byte the least significant. |
| `ChaCha20Bytes.SerializeValues` | benchmarks/crypto_probe.c:138-144 | The four bytes of each word of a block are its base-256 digits, the least significant first. |
| `ChaCha20Bytes.SuccValue` | benchmarks/crypto_probe.c:157-157 | The block counter goes up by one, and from 2^32 - 1 to zero. |
| `ChaCha20KnownAnswer.KnownBlock` | tests/chacha20_test.c:126-146 | The keystream block of section 2.3.2 of RFC 8439, all 64 bytes of it, from the key, counter and nonce given there. |
| `ChaCha20KnownAnswer.KnownStream` | tests/chacha20_test.c:126-146 | Any buffer up to a block long, under that key, counter and nonce, is XORed with that block. |
| `ChaCha20KnownAnswer.FirstState` | benchmarks/crypto_probe.c:112-125 | The sixteen words of the state for that key, counter and nonce. |
| `ChaCha20Spec.Involution` | benchmarks/crypto_probe.c:147-159 | Applying the stream twice gives the buffer back. |
| `ChaCha20Spec.CutBetweenBlocks` | benchmarks/crypto_probe.c:147-159 | A buffer may be cut at any multiple of 64 bytes and the rest processed with the counter moved along. |
| `ChaCha20.Quarter` | benchmarks/crypto_probe.c:102-108 | The macro, with rotations written as shift-or pairs, is the quarter-round of section 2.1 of RFC 8439. |
| `ChaCha20Spec.QuarterRoundExample` | benchmarks/crypto_probe.c:104-108 | The worked example of section 2.1.1 of RFC 8439. |
| `ChaCha20.FourColumnsAreARound` | benchmarks/crypto_probe.c:129-132 | The first four quarter-rounds mix exactly the four columns of the state. |
| `ChaCha20.FourDiagonalsAreARound` | benchmarks/crypto_probe.c:133-136 | The last four mix exactly the four diagonals. |
| `ChaCha20.Block` | benchmarks/crypto_probe.c:110-145 | The block function gives the keystream block of the counter. |
| `ChaCha20.Xor` | benchmarks/crypto_probe.c:147-159 | The simple driver applies the stream in place. |
| `ChaCha20.XorHoisted` | benchmarks/crypto_probe.c:167-207 | The driver that keeps the state applies the same stream. |
| `ChaCha20Vector.RotlLanes` | benchmarks/crypto_probe.c:230-232 | Two shifts and an OR of a whole register rotate every lane. |
| `ChaCha20Vector.QuarterLanes` | benchmarks/crypto_probe.c:266-269 | Register operations are independent quarter-rounds, one in each lane. |
| `ChaCha20Vector.SlidRowsAreADiagonalRound` | benchmarks/crypto_probe.c:271-282 | Rows slid by the three shuffles, mixed, and slid back are a diagonal round of the state. |
| `ChaCha20Vector.RowRounds` | benchmarks/crypto_probe.c:265-283 | Ten turns of the row loop are the twenty rounds of the state the rows make up. |
| `ChaCha20Vector.XorRows` | benchmarks/crypto_probe.c:234-294 | The row driver applies the same stream. |
| `ChaCha20Vector.LaneRounds` | benchmarks/crypto_probe.c:334-350 | In the transposed form every lane goes through the rounds of its own block. |
| `ChaCha20Vector.GroupWords` | benchmarks/crypto_probe.c:329-353 | Lane l of the transposed words is the keystream block of the l-th counter of the group. |
| `ChaCha20Vector.XorLanes` | benchmarks/crypto_probe.c:304-372 | The transposed driver, four or eight lanes wide, applies the same stream, partial groups and partial blocks included. |
| `QueueSlots.NaiveScan` | src/core/queue.asm:1209-1226 | The forward walk finds the least claimable position or reports that there is none. |
| `QueueSlots.ReadyMeans` | benchmarks/lease_probe.c:214-233 | A stretch of positions is ready at `now` exactly when it holds a claimable message, for every `now` below the value that means never. |
| `QueueSlots.FirstClaimableUnique` | benchmarks/lease_probe.c:330-370 | The least claimable position is unique, so the scan and the walk cannot both be right and differ. |
| `QueueSlots.SegmentReadyAt` | benchmarks/lease_probe.c:258-275 | The early-stopping scan of a segment computes its readiness and reads at most its own slots. |
| `ReadyLeaves.RingSegment` | benchmarks/lease_probe.c:214-246 | With at most 512 live segments a ring leaf names one live segment, whatever the rotation. |
| `ReadyLeaves.StepExactIff` | benchmarks/lease_probe.c:482-522 | One operation keeps the leaves a rebuild would give if and only if its guard holds: there is a slot to free in a segment that can be seen, or the segment was at zero; nothing for a claim; for an acknowledgement, that the message is not free with a deadline while nothing else keeps its segment at zero. |
| `ReadyLeaves.RunExactIff` | benchmarks/lease_probe.c:406-522 | Over any sequence of operations the leaves are those of a rebuild after every one of them if and only if every operation meets its guard in the slots it finds. |
| `ReadyLeaves.ValidIsGuarded` | tests/lease_state_test.c:205-220 | A queue whose free messages carry no deadline and whose live positions all have slots meets every guard of every sequence, up to the segment whose end wraps. |
| `ReadyLeaves.AgreesIff` | benchmarks/lease_probe.c:330-370 | What a scan can see has the same least claimable position as the whole window if and only if something within reach can be claimed or nothing at all can be. |
| `ReadyLeaves.WrapExample` | benchmarks/lease_probe.c:258-275 | A message at position 2^64 - 16, in the segment whose end wraps: claimable, its segment never ready, and out of reach of a scan. |
| `ReadyLeaves.NeverExample` | benchmarks/lease_probe.c:330-370 | A window that differs at the time that means never: only its second segment has something to claim. |
| `ReadyTree.Tree.constructor` | benchmarks/lease_probe.c:248-256 | A tree has 512 leaves, 64 and 8 nodes above them and a root. |
| `ReadyTree.Tree.Build` | benchmarks/lease_probe.c:277-299 | The built tree holds the readiness of every live segment in its ring leaf and the minimum of its children in every node, for every window of 64-bit positions. |
| `ReadyTree.Tree.NodeCovers` | benchmarks/lease_probe.c:302-309 | A node of a correct tree holds the minimum over exactly the leaves below it. |
| `ReadyTree.Tree.NodeSearch` | benchmarks/lease_probe.c:313-327 | The search returns the leftmost ready leaf of the range, and its cost depends only on how the range cuts the node. |
| `ReadyTree.Tree.SearchRing` | benchmarks/lease_probe.c:343-348 | The first ready leaf in ring order; at most 25 summary nodes and 16 leaves, 34 nodes when the window wraps and two searches are made. |
| `ReadyTree.Tree.Scan` | benchmarks/lease_probe.c:330-370 | On an exact tree, for every window, rotation and time, the scan gives the least claimable position within reach; that is the answer of the naive walk if and only if something within reach can be claimed or nothing at all can be. |
| `ReadyTree.Tree.Propagate` | benchmarks/lease_probe.c:406-435 | Climbing with early stops restores every node after one leaf changed, and writes at most three. |
| `ReadyTree.Tree.Lower` | benchmarks/lease_probe.c:438-443 | Taking a lower value without a scan keeps the node minima. |
| `ReadyTree.Tree.Rescan` | benchmarks/lease_probe.c:446-470 | The leaf becomes the readiness of its segment; at most 62 slots read and three nodes written. |
| `ReadyTree.Tree.Enqueue` | benchmarks/lease_probe.c:482-488 | The message can be claimed at every time and no other slot changes. An exact tree stays exact if and only if there is a slot to free in a segment that can be seen, or the segment was at zero; no slot is read and at most three nodes are written. |
| `ReadyTree.Tree.Nack` | benchmarks/lease_probe.c:490-496 | The same for handing a message back. |
| `ReadyTree.Tree.Claim` | benchmarks/lease_probe.c:498-509 | The message can be claimed again exactly from time 1,700,000,060,000 plus its position on, as a 64-bit sum, and no other slot changes. An exact tree stays exact. |
| `ReadyTree.Tree.Ack` | benchmarks/lease_probe.c:511-522 | The message can never be claimed again and no other slot changes. The skipped rescan is exact if and only if the message was not still free with a deadline left in its slot while nothing else in the segment was ready at zero. |
| `ReadyLeaves.DueIff` | benchmarks/lease_probe.c:482-522 | After any run of operations a message can be claimed exactly as its last operation says: at every time after being enqueued or handed back, from its deadline on after a claim, never after an acknowledgement, and as before if there was none. |
| `ReadyLeaves.EffectMeans` | benchmarks/lease_probe.c:482-522 | What each operation does to the message it names, at every time, and that it does nothing to any other. |
| `ReadyTree.Tree.Run` | benchmarks/lease_probe.c:406-522 | Any sequence of the four operations on any slots: a tree that was exact is exact after every operation if and only if every operation meets its guard. |
| `ReadyTree.BuildRunScan` | benchmarks/lease_probe.c:583-588 | Build, any sequence of operations, and a scan: the least claimable position of the slots as the operations leave them, with no further condition for a valid queue. Whatever the run, the position found is due by its last operation: none whose last operation is a claim is found before that deadline. |
| `ReadyTree.Compare` | benchmarks/lease_probe.c:594-603 | The answers of the tree and of the walk are the same if and only if something within reach can be claimed or nothing at all can be; for a valid queue they always are. |
| `ReadyTree.StaleAckExample` | benchmarks/lease_probe.c:511-522 | The guard of an acknowledgement is needed: on a slot the state table forbids, free with a deadline, the tree is left at zero. |
| `LeaseQueue.Engine.Scan` | src/core/queue.asm:1227-1320 | The walk that steps over segments finds the first claimable message among those in segments whose summary has come. It steps back below the head if and only if it comes to the segment whose end wraps and is told to skip it. |
| `LeaseQueue.TrustMeans` | src/core/queue.asm:1719-1736 | A summary hides no claimable message, at any time, exactly when it does not exceed the readiness of its slots. |
| `LeaseQueue.SearchIsWalk` | src/core/queue.asm:1209-1226 | With such summaries the walk that skips finds what the plain walk finds, at every time. |
| `LeaseQueue.Engine.SummariesValid` | src/core/queue.asm:1737-1827 | The validator accepts the summaries if and only if none is later than what the slots say. |
| `LeaseQueue.Engine.PageValid` | src/core/queue.asm:453-538 | A commit accepts a queue exactly when its page and every segment are sealed, head, cursor and tail are in order, and the summaries can be trusted. |
| `LeaseQueue.Engine.SegmentsSealed` | src/core/queue.asm:208-270 | Every segment names itself and has its own checksum, or the queue is refused. |
| `LeaseQueue.Engine.CommitQueue` | src/core/database.asm:1265-1310 | A commit succeeds exactly for a queue it accepts, and leaves one it refuses as it is. |
| `LeaseQueue.Engine.PushMessage` | src/core/queue.asm:734-957 | A push takes the tail in a new or the last segment, refuses a 496th segment, puts the cursor back to the head, and seals both pages, for every tail; the new message can be claimed at every time and no other slot changes. After the last position there is no queue any more. |
| `LeaseQueue.Engine.WriteSlot` | src/core/queue.asm:1848-1914 | The summary of the written slot's segment becomes its readiness, and segment and queue page are sealed. |
| `LeaseQueue.Engine.EditSlot` | src/core/queue.asm:1406-1499 | Making a slot writable copies the queue page, and the segment unless the transaction has its own copy, and leaves what was copied without a seal. |
| `LeaseQueue.Engine.Hold` | src/core/queue.asm:1668-1705 | A slot is made writable exactly for the holder of a good ticket. |
| `LeaseQueue.Engine.ClaimMessage` | src/core/queue.asm:1545-1660 | A claim takes the first message its search finds at the later of the given time and the queue's own, raises its token and hands out the ticket, with every refusal of the source and what each leaves of the pages. The message can be claimed again exactly from that time plus the duration on; no other slot changes. |
| `LeaseQueue.Engine.AdvanceHead` | src/core/queue.asm:1934-2043 | The head moves to the first position that is not acknowledged. |
| `LeaseQueue.Engine.AckMessage` | src/core/queue.asm:2052-2087 | An acknowledgement is accepted exactly for a claimed message with the same token, and moves the head over what is finished. The message can never be claimed again; no other slot changes. |
| `LeaseQueue.Engine.NackMessage` | src/core/queue.asm:2094-2146 | Handing back raises the token and has the message claimable at every time; no other slot changes. |
| `LeaseQueue.Engine.RenewMessage` | src/core/queue.asm:2155-2212 | A renewal asks for the token and never for the deadline. Accepted, it has the message claimable exactly from the later of the given time and the queue's own plus the duration on, with no other slot changed; refused for its new deadline it leaves its pages without a seal. |
| `LeaseQueue.StepCoherent` | docs/QUEUE.md:581-620 | Every operation keeps the table of slot states, a summary for every live segment, and a head that is not acknowledged. |
| `LeaseQueue.StepTrustedIff` | src/core/queue.asm:1719-1736 | Every operation keeps the summaries trustworthy, but exactly for a push into a segment whose summary says that nothing in it is free. |
| `LeaseQueue.StepOrderedIff` | docs/QUEUE.md:694-702 | Every operation keeps head, cursor and tail in order, but exactly for the acknowledgement of the head when everything behind it up to the cursor is acknowledged and the queue goes on behind the cursor. |
| `LeaseQueue.StepSealedIff` | src/core/queue.asm:1345-1353 | Every operation keeps the pages sealed, but exactly for a claim that finds a message, or a renewal with a good ticket, whose deadline does not fit into 64 bits. |
| `LeaseQueue.RunAcceptedIff` | src/core/queue.asm:453-538 | Over any run a queue stays one that a commit accepts if and only if none of the three happens, each told by the queue before the operation. |
| `LeaseQueue.CommitsSucceed` | tests/lease_ops_test.c:338-366 | In a run in which none of the three happens every commit succeeds, whatever was refused in between. |
| `LeaseQueue.StepMovesOn` | docs/QUEUE.md:344-366 | The clock of a queue is the later of the time given and its own wherever a lease is granted, and otherwise as it was: it never runs back. Head and tail only move on. |
| `LeaseQueue.ClaimIsFirst` | docs/QUEUE.md:524-541 | In a queue a commit accepts, a claim gets the first message that can be claimed and finds none only when there is none. |
| `LeaseQueue.TicketIsGood` | docs/QUEUE.md:386-395 | A claim raises the token by one and its ticket is good. |
| `LeaseQueue.TicketStep` | docs/QUEUE.md:988-1027 | A good ticket stays good through every operation but a claim that finds its message, refused for its deadline or not, its acknowledgement, or its being handed back; after these it is spent. |
| `LeaseQueue.SpentStep` | docs/QUEUE.md:988-1027 | A spent ticket stays spent, and acknowledging, handing back or renewing with it is refused and changes nothing. |
| `LeaseQueue.TicketRun` | docs/QUEUE.md:379-400 | Over every run, whatever its times, a ticket is still good if and only if nothing in the run ended it. |
| `LeaseQueue.AcceptedIff` | docs/QUEUE.md:379-400 | From a claim to the acknowledgement that presents its ticket, over any run in between, the acknowledgement is accepted if and only if nothing ended the ticket: no clock can have a message acknowledged twice, or by a worker whose lease was taken. |
| `LeaseQueue.StepDeadlines` | docs/QUEUE.md:524-541 | For every operation and every time: when the message it names can be claimed afterwards, and that the others can be claimed exactly when they could before. |
| `LeaseQueue.DeadlineRun` | src/core/queue.asm:2155-2212 | Over every run that does not end a ticket its deadline is that of the last renewal that succeeded, or of the claim. |
| `LeaseQueue.NotTakenEarly` | src/core/queue.asm:1545-1660 | From a claim, over any run that does not end its ticket, to any later claim: at a queue time before the last deadline granted it gets another message or none, and the ticket is still good. |
| `LeaseQueue.LeaseKept` | src/core/queue.asm:1545-1660 | What a lease promises its holder: unless they use the ticket up, it is good after every run in which each claim is made, by the clock of the queue, before the last deadline granted. |
| `LeaseQueue.StaysUntilAcked` | docs/QUEUE.md:561-579 | Over every run a message stays in the queue until it is acknowledged. |
| `LeaseQueue.RefusedAloneIff` | src/core/queue.asm:1345-1353 | A refused operation leaves the queue and its pages as they were, but exactly for a claim that finds a message, or a renewal with a good ticket, whose deadline does not fit into 64 bits; of the renewal nothing is to be seen where the queue page had no seal before and the segment was a copy of its own. |
| `LeaseQueue.HiddenMessageExample` | src/core/queue.asm:833-935 | A message pushed behind a claimed one: its summary is refused by a commit, and a claim does not find it. |
| `LeaseQueue.CursorExample` | src/core/queue.asm:921-935 | The claimed message is then acknowledged, and the head is past the cursor. |
| `LeaseQueue.RefusedClaimExample` | src/core/queue.asm:1588-1605 | A refused claim has raised a token, and the commit after it is refused. |
| `LeaseQueue.RefusedRenewalExample` | src/core/queue.asm:2176-2189 | A refused renewal changes no slot, and the commit after it is refused. |
| `LeaseQueue.StepsBackExample` | src/core/queue.asm:1272-1284 | A lapsed message at position 2^64 - 16, whose segment has the summary the engine gives it: the search steps back to position 46. |
| `SealedPages.BuildGeneration` | tests/encrypted_commit_test.c:151-189 | The plaintext is the content byte by byte, zeros up to byte 256 and the pattern of the generation from there on. The pages built form a chain: the superblock verifies and names them, its root vouches for the node, the node for the leaf, and the leaf opens the payload; leaf and node carry their headers and checksums. Without randomness the payload is left as it was. |
| `SealedPages.SealPage` | src/crypto/page_seal.asm:163-217 | A sealed page opens under its entry to the plaintext; without randomness the page stays as it was and the call says so. |
| `SealedPages.BuildSuperblock` | tests/encrypted_commit_test.c:181-188 | The superblock verifies under its tag and gives back every field written. |
| `SealedPages.FillPayload` | tests/encrypted_commit_test.c:160-162 | Every byte of the plaintext: the content as far as byte 256, zeros behind it, then the pattern, over whatever of the content reached that far. |
| `SealedPages.OnePlaintext` | src/crypto/seal_dir.asm:352-411 | A root vouches for one plaintext: two chains under it end in the same, unless two nodes or two leaves have the same MAC, or one entry opens two payloads. |
| `CommitProtocol.OneContent` | tests/encrypted_commit_test.c:217-256 | What is read under a superblock is the same in any two files that back it up, under the same proviso. |
| `CommitProtocol.RecoverFile` | tests/encrypted_commit_test.c:194-257 | Nothing if and only if neither superblock verifies; a hybrid if and only if a link of the chain the chosen one names is missing or does not verify; otherwise the greatest generation that verifies, with the plaintext its chain opens to. |
| `CommitProtocol.RecoverIff` | tests/encrypted_commit_test.c:190-257 | There is exactly one thing a reader can make of a disk, and the function the theorems about runs use is it. |
| `CommitProtocol.CurrentIsRecovered` | tests/encrypted_commit_test.c:194-257 | A whole generation that is not outbid is what the reader sees, with its own payload. |
| `CommitProtocol.StartingFile` | tests/encrypted_commit_test.c:267-278 | The starting file makes its generation current. |
| `CommitProtocol.Interrupted` | tests/encrypted_commit_test.c:344-346 | Writing a prefix of the operations gives the disk the theorems speak of. |
| `CommitProtocol.EveryPrefix` | tests/encrypted_commit_test.c:321-326 | In the documented order every crash between writes recovers whole: the old generation until the superblock lands, then the new one. Nothing is assumed of the tag. |
| `CommitProtocol.CrashSafe` | docs/ENCRYPTED_FORMAT.md:597-654 | Whatever part of the evidence landed, and for every mix of old and new superblock bytes, the reader sees the old or the new generation whole. |
| `CommitProtocol.RunsAreSafe` | tests/encrypted_commit_test.c:321-364 | Over every run of commits, completed or interrupted at any point, each attempt leaves the previous or the new generation visible with its own payload. |
| `CommitProtocol.WrongOrderIsHybrid` | tests/encrypted_commit_test.c:327-332 | With the superblock first, every interruption before the last write publishes a generation the file does not back up. |
| `CommitProtocol.SuperblockReplaced` | tests/encrypted_commit_test.c:384-478 | After a commit, a superblock page that agrees in the tagged bytes still publishes, and one that does not verify gives back exactly the generation before. |
| `CommitProtocol.RunEndsCurrent` | tests/encrypted_commit_test.c:321-364 | Whatever the attempts of a run left, it ends with one generation whole and not outbid. |
| `CommitProtocol.RollBack` | tests/encrypted_commit_test.c:450-478 | After any run and one more completed commit, destroying the newest superblock gives back exactly the generation before it, whole. |
| `CommitProtocol.OnlyTaggedBytesMatter` | tests/encrypted_commit_test.c:138-144 | The reader depends on no superblock byte beyond the tag, whatever the superblock that is not chosen may name. |
| `CommitProtocol.SelfNamedExample` | tests/encrypted_commit_test.c:225-240 | A chosen superblock that names its own page as the leaf, and a byte behind its tag on which the answer hangs. |
| `CommitProtocol.CommitSparesCurrent` | tests/encrypted_commit_test.c:450-478 | A commit writes no page the superseded generation names. |
| `CommitProtocol.WholeCode` | tests/encrypted_commit_test.c:255-255 | For a long of 32 or 64 bits the returned code is the generation number, and positive, exactly for the generations a positive long can hold. |
| `CommitProtocol.CutShort` | tests/encrypted_commit_test.c:321-364 | Two generations built, the first on a starting file and the commit of the second cut short after any number of its writes: the reader returns the number and the content of the first until the last write, then those of the second. The content comes as 64 bytes: its first 63, with zeros behind it. |
| `CommitProtocol.ContentSeen` | tests/encrypted_commit_test.c:251-254 | What a reader is given of a built generation: 64 bytes that start with its content, if that has at most 63, and zeros behind it. |
| `CommitProtocol.TearProofWitness` | tests/encrypted_commit_test.c:384-448 | The assumption about torn superblocks can be met. |
| `PageCache.Transform` | benchmarks/io_spike.c:198-206 | The keystream loop is word i XOR the key after i + 1 steps; `NextKeyBits` says what a step is. |
| `PageCache.TransformTwice` | benchmarks/io_spike.c:198-206 | The transform undoes itself. |
| `Xorshift.NextKeyBits` | benchmarks/io_spike.c:203-203 | One step for every key, bit by bit: each bit of the key plus the one 13 below it, then the one 7 above, then the one 17 below, modulo two, within 64 bits. |
| `Xorshift.BitsDecide` | benchmarks/io_spike.c:203-203 | Those bits leave one key. |
| `Xorshift.KnownStarts` | benchmarks/io_spike.c:199-199 | The keys that pages 0, 1 and 2 start from. |
| `Xorshift.TransformedBits` | benchmarks/io_spike.c:202-205 | Word i of the result, bit by bit. |
| `PageCache.Geometry` | benchmarks/io_spike.c:231-239 | The set count is the least sufficient power of two, and the 32-bit slot count is right exactly up to 2^28 requested sets. |
| `PageCache.Cache.constructor` | benchmarks/io_spike.c:231-244 | A new cache is empty, and can be used exactly up to 2^28 requested sets; above that it has no slots. |
| `PageCache.TooManyExample` | benchmarks/io_spike.c:231-239 | Asked for 2^32 - 1 slots, the geometry is 2^29 sets and a count of zero. |
| `PageCache.LastPageExample` | benchmarks/io_spike.c:259-271 | Page 2^64 - 1 is found in a cache that holds nothing. |
| `PageCache.FailedReadExample` | benchmarks/io_spike.c:257-290 | Eight pages fill a set by ordinary requests, the read of a ninth fails half way, and one of the eight keeps its tag with other bytes. |
| `PageCache.Cache.Reset` | benchmarks/io_spike.c:250-255 | A reset cache is empty and faithful to any file. |
| `PageCache.Cache.Evict` | benchmarks/io_spike.c:275-280 | The clock takes the first empty or unreferenced slot from the hand on, clears exactly the bits it passes, and looks at no more than nine slots. |
| `PageCache.Cache.Probe` | benchmarks/io_spike.c:259-271 | A page is found in its own set if it is anywhere; the last page number is found exactly when its set has an empty slot. |
| `PageCache.Cache.Get` | benchmarks/io_spike.c:257-290 | Each page stays in at most one slot, in its own set; a readable page is served with the bytes an uncached read gives; after a failed read the cache is faithful exactly when the victim was empty or unchanged. A hit sets the reference bit of its slot and no other; a miss gives up an empty or unreferenced slot, or the one at the hand if the set has none, and clears the bits of exactly those it passes. |
| `PageCache.Cache.Serve` | benchmarks/io_spike.c:257-290 | Any run of requests for readable pages gives what an uncached reader gives. |
| `SetCache.Cache.constructor` | benchmarks/cache_probe.c:83-99 | A new cache is empty. |
| `SetCache.Oldest` | benchmarks/cache_probe.c:134-138 | The first slot with the least stamp. |
| `SetCache.ClockVictim` | benchmarks/cache_probe.c:139-146 | The first unreferenced slot from the hand on, or the slot at the hand after one full turn; exactly the passed bits are cleared. |
| `SetCache.OldestOnProbation` | benchmarks/cache_probe.c:150-156 | The least stamp among the slots that are not promoted, if one of them has a stamp below the largest. |
| `SetCache.Choose` | benchmarks/cache_probe.c:129-162 | An empty slot first, then the victim of the policy. |
| `SetCache.Cache.Get` | benchmarks/cache_probe.c:110-170 | A touch of any page number at any time changes its own set as the policy says and nothing else; pages stay unique and at home. A hit leaves the slot referenced and promoted with the new stamp, a miss neither, and no other slot changes but for the bits a hand clears. Promoted goes on meaning touched again since placed, and referenced touched since placed or passed by the hand. |
| `SetCache.ReplayAny` | benchmarks/cache_probe.c:110-170 | After any history of touches, under each policy, a page is promoted exactly when it has been touched again since it was placed, and referenced exactly when it has been since it was placed or the hand last passed it. |
| `SetCache.Cache.GetClock` | benchmarks/cache_probe.c:139-146 | Under the clock, the page a miss throws out of a full set has been touched since the hand last passed it if and only if every page of the set has. |
| `SetCache.Cache.GetLru` | benchmarks/cache_probe.c:110-170 | Under LRU a touch hits exactly when the page is among the most recent of its set, and that description stays true if and only if the page is not the mark of an empty slot with its set full, and the clock does not wrap with another page in the set. |
| `CachePolicy.TouchTaken` | benchmarks/cache_probe.c:134-138 | Keeping only the most recent pages loses nothing the next touch needs. |
| `SetCache.Replay` | benchmarks/cache_probe.c:83-170 | After any history of touches every set of an LRU cache holds exactly the most recently touched distinct pages that map to it, as many as it has ways. The first touch of the number that marks an empty slot that finds its set full is where this ends, and the only place short of a wrapping clock. |
| `SetCache.EmptyMarkExample` | benchmarks/cache_probe.c:110-170 | A set of one slot holding a page, and a touch of the number that marks an empty slot. |
| `SetCache.WrappedStampExample` | benchmarks/cache_probe.c:115-138 | Two pages in a set after the clock has wrapped: the one touched last counts as the older. |
| `SetCache.ProbationMiss` | benchmarks/cache_probe.c:147-169 | A miss under probation costs a promoted page if and only if the set is full, no slot is expendable, and the slot that then counts as oldest is promoted; while no stamp is the largest, that is when every slot holds a promoted page. |
| `SetCache.LastStampExample` | benchmarks/cache_probe.c:147-169 | A set whose one slot on probation has the largest stamp: a miss takes the promoted page. |
| `SetCache.Sweep` | benchmarks/cache_probe.c:103-169 | A sweep of pages not touched again misses every time and, short of a clock that wraps, changes no promoted slot of any set that had one to spare. |
| `SetCache.ProbationEvicts` | benchmarks/cache_probe.c:147-169 | Under probation, short of the largest stamp, the page a miss throws out of a full set has been touched again since it was placed if and only if every page of the set has. |
| `SetCache.TwiceThenSweep` | benchmarks/cache_probe.c:103-169 | A page touched twice is hit again after a sweep of any length, if its set had a slot to spare beside it and no stamp wraps. |
| `Crc32c.Compute` | tests/corrupt.py:28-34 | The nested loops compute the CRC of the shift register. |
| `Crc32c.CheckValue` | tests/corrupt.py:52-54 | The CRC of the digits 1 to 9 is 0xE3069283. |
| `Crc32c.BurstDetected` | tests/corrupt.py:28-34 | Messages that differ, but only within four consecutive bytes, have different checksums. |
| `Crc32c.SealHeader` | tests/corrupt.py:37-38 | Sealing stores the checksum of the first 124 bytes behind them and changes nothing else. |
| `Crc32c.SealSuperblock` | tests/corrupt.py:41-44 | The same at the start of a page. |
| `Crc32c.StaleSeal` | tests/corrupt.py:64-66 | A seal left stale is broken by every change within four consecutive bytes of the 128, the stored checksum among them. |
| `Crc32c.Residue` | tests/corrupt.py:28-38 | Exactly the stored checksum brings the register to one value that does not depend on the message. |
| `ShiftRegister.Register.RunJoined` | tests/corrupt.py:30-33 | Up to four bytes go through the register like one word of that many bits. |
| `ForPacker.Pack` | tests/compress_tests.py:67-84 | An exception exactly when base or width do not fit the header. Otherwise base and width can be read back from its first nine bytes, as a signed and an unsigned number, the other seven are zero, and the bytes from offset 16 on, as one little-endian number, are the OR of the deltas, of any size and sign, each at bit i * width, cut to the bytes of the stream; where every delta fits its width that is the sum of delta i times 2 to the power i * width. Every write is inside the stream. |
| `ForPacker.Recoverable` | tests/compress_tests.py:67-84 | Every delta can be read back at bit i * width. |
| `Shuffle.FindMultiplier` | benchmarks/datasets.py:96-99 | For every row count of at least one the search ends, at the first odd number from the start on that is prime to it. |
| `Shuffle.NoRows` | benchmarks/datasets.py:97-99 | For no rows at all there is no number to find. |
| `Shuffle.Permutation` | benchmarks/datasets.py:100-105 | The index map is a permutation of the rows. |
| `Shuffle.MakeOrder` | benchmarks/datasets.py:96-107 | In place r comes row (r * A + 1442695040888963407) mod rows, for A the least odd number from 6364136223846793005 on that is prime to the row count, and every row comes exactly once. |

## Left out

- Of the engine, written in assembly, all but the queue operations with leases: allocator, catalog, PAX pages, SQL, seal tree, ML-KEM, streams, dequeueing and retiring a queue; payloads and their extent chains, and the page numbers and checksums behind the seals.
- Cryptographic strength, key derivation, XChaCha20 and the AES-NI and carry-less multiply loops.
- The known-answer vectors, except a quarter-round, a ChaCha20 block and the CRC reference value; the agreement with RFC 8439 is proved against its definitions instead.
- Bindings, benchmark runners, timing, CPU detection, random workloads and hit rates.
- Update in place of the 16-word cipher state and of vector registers: local sequences stand for them; the buffers are arrays.
- QueueSlots.NaiveScan: is the walk of the header comment; the walk that steps over segments is LeaseQueue.Engine.Scan.
- LeaseQueue.RunAcceptedIff: in a run messages are pushed below position 2^64 - 16 only; the theorems about steps and runs are about queues that end there.
- LeaseQueue.Engine.CommitQueue: what a commit checks of this queue; what it checks of the rest of the file, and the writing itself, are not modelled.
- CommitProtocol.RunsAreSafe: a torn superblock write is covered under the assumption `TearProof` on the tag; other interruptions need no assumption.
- CommitProtocol.OnlyTaggedBytesMatter: asks that the chosen superblock does not name a superblock page as evidence, which no generation built by the program does.
- CommitProtocol.WrongOrderIsHybrid: asks that the stale node page has another MAC than the new one.
- PageCache.Cache.constructor: failing allocations are not modelled.
- SetCache.Cache.constructor: asks for between 1 and 8192 ways, so that there is at least one set.
- SetCache.Replay: says nothing of histories that go on after the first harmful touch; later touches may bring the lost page back.
- ReadyTree.Tree.Run: head and tail do not move during a run.
