# Verified models of an SGI emulator's core state machines

This project models the parts of the emulator whose correctness rests on
invariants rather than on a single line of code, and proves what they promise:

- the graphics FIFO, a broadcast ring with late-published heads and stale caches
  (`RingIndex`, `GFifoSteps`, `GFifoSafety`, `GFifoProgress`, `GFifoLag`,
  `GFifoQueue`);
- the copy-on-write disk in its layered and its sector form
  (`CowSpec`, `CowSidecar`, `CowNode`, `CowDisk`);
- the monitor's expressions: parser, evaluator and folder (`Expr`, `ExprParser`,
  `ExprMeaning`);
- the timer manager (`TimerSteps`, `TimerSafety`, `TimerSleep`, `TimerLaws`,
  `TimerManager`);
- calendar arithmetic and the clock offset (`Calendar`, `RtcOffset`);
- the Octane's widget windows (`Ip30`);
- the snapshot chunk store (`ChunkStore`) and the audio resampler (`Resampler`);
- `Basics`, what they share.

Concurrent components are step systems: a step makes one access to memory that
another thread can touch (FIFO), or is one section run under the lock (timers),
and theorems are about every interleaving. Their classes carry the stored form
(ring indices, slot arrays, 32-bit generations) beside a ghost state of the step
system, and are proved to perform its steps.
Other stateful components are classes proved against specification functions.

Check the whole project with `dafny verify dfyconfig.toml`.

## Where the code falls short of its own description

Each of these has a concrete witness or an exact condition below.

- `is_empty_at` loads the head before the tail, so a producer that goes a whole
  lap in between makes it answer true with an entry unread
  (`EmptyAtCanBeFooled`). Under a lap a true answer is right; at a lap or more it
  may be either (`EmptyAtCanBeRightAfterALap`), and is right exactly when the head
  register, read again, reads as it did before (`EmptyAtAnswersExactly`). A
  consumer asking about its own head is always answered right. `is_empty` loads
  the tail first and is sound.
- The remark that a false `is_empty` is at most 63 entries pessimistic holds for
  heads that drain no batches (`PlainHeadLagsUnder64`) and for heads whose drains
  all end clean (`CarefulHeadLagsUnder64`). A drain exceeds it at once exactly
  when it ends neither on a multiple of 64 nor at the tail and its words no longer
  fit under 63 (`DrainKeepsBoundExactly`). Short of that it may leave a multiple
  of 64 inside the lag (exactly when: `DrainKeepsUpExactly`), and then plain
  consumes alone bring the lag past 63 once enough entries wait
  (`JumpedStopBreaksTheBound`); without one they never do
  (`KeptUpHeadLagsUnder64`). Jumped multiples add up: one-word batches alone bring
  the lag to the depth of the ring less two, the most there is
  (`LagReachesTheRing`, `LagIsUnderTheRing`).
- The timer worker can sleep with no wake-up time while an expired timer waits in
  its queue, after taking a ticket whose timer was removed or disabled
  (`WorkerCanOversleep`, exact condition in `SleepsExactly`).
- A discard that is not whole sectors also drops the written neighbours in its
  edge sectors (`OneByteDiscardDropsANeighbour`, `UnalignedDiscardSpreads`).
- On an image that is not whole sectors the layered node can neither read nor
  write the last, partial sector: a write copies the sector up first and fails
  there (`Write`), so no run of requests ever makes it readable (`Run`,
  `PartialSectorReadsExactly`). Only the sector disk, which writes without
  reading, can make it dirty (`WriteSectors`); a node can but inherit it so from
  a sidecar or a snapshot.
- A commit leaves the sidecar as it was until the next flush. Reopened after a
  crash in between, a committed sector that the old sidecar names and no later
  write touched cannot be read (`CommittedSectorUnreadable`), or, if any sector
  past it was written meanwhile, reads without an error as zeroes
  (`CommittedSectorReadsZero`); it is shown exactly when a later sector was
  written and its bytes are zeroes (`StaleSectorAfterCommit`, and for any disk and
  any sidecar `ReopenedShowsExactly`).
- A commit on an overlay with no node below moves the data to a file the overlay
  does not read, and the disk then shows zeroes (`CommitAll`).
- A port re-attached while up from a widget with a large window to one without
  keeps the old widget in that window, dead link or not
  (`OldWidgetStaysInLargeWindow`; `SetWidgetLink` says exactly when).
- A zero clock offset moves times before year 0 or after January 10000
  (`ZeroOffsetIsIdentityExactly`).

## Model

| member | source | states |
|---|---|---|
| RingIndex.RefusesExactlyWhenFull | src/gfifo.rs:154-301 | the four residue tests of the four pushes all decide one question on the unbounded counters: would the unit leave the one empty slot |
| GFifoSafety.StepKeepsInv | src/gfifo.rs:147-495 | every atomic step of any producer, consumer or observer keeps the order cached head <= published <= local <= cached tail <= tail <= cached head + depth - 1 and the slot contents |
| GFifoSafety.ReachableInv | src/gfifo.rs:147-495 | so every state of every interleaving satisfies it |
| GFifoSafety.EveryHeadReadsThePushOrder | src/gfifo.rs:346-360 | what a head has read is exactly the push order since reset up to its position; of two heads one has read a prefix of the other |
| GFifoSafety.PushOrderOnlyGrows | src/gfifo.rs:172-176 | the published order is only ever extended |
| GFifoSafety.NoUnreadEntryIsOverwritten | src/gfifo.rs:147-177 | a producer's slot write never changes an entry that some active head has not published as passed, however stale the cached head |
| GFifoSafety.EmptyMeansConsumed | src/gfifo.rs:535-538 | `is_empty` answering true means every head has consumed everything published when the tail was read, although the reads are not atomic |
| GFifoSafety.CaughtUpHeadIsPublished | src/gfifo.rs:457-484 | a head that has consumed everything is published at the tail with no flush |
| GFifoSafety.PushIsAllOrNothing | src/gfifo.rs:196-322 | between a push taking the lock and the next taking it, the published order is untouched or longer by the whole unit, contiguous; a refused push publishes nothing |
| GFifoSafety.BatchDrainNeverWaits | src/gfifo.rs:396-448 | a drain started at a batch token never finds its payload missing, whatever tail sample it holds |
| GFifoSafety.DrainThenConsumeTakesTheBatch | src/gfifo.rs:396-448 | drain then consume delivers the token and exactly its payload in order and leaves the head behind the batch |
| GFifoProgress.EveryRunIsShort | src/gfifo.rs:281-484 | while the tail stands still, whatever refused producers, observers and polling consumers do in between, no interleaving retires more entries than the heads were behind, nor holds more useful consumer steps than eight per unread entry plus one per head |
| GFifoProgress.UsefulStepExists | src/gfifo.rs:346-484 | until a head is published at the tail its own consumer has a step that gets ahead |
| GFifoProgress.ConsumersReachTheTail | src/gfifo.rs:457-484 | from any state the consumers alone bring every head to the tail, published |
| GFifoProgress.RetryIsAccepted | src/gfifo.rs:281-301 | with every head published at the tail any unit smaller than the ring is admitted |
| GFifoProgress.PushGoesThrough | src/gfifo.rs:281-322 | a push with room behind every published head goes from taking the lock to releasing it, the whole unit published and a batch recorded |
| GFifoProgress.RefusedPushGetsThrough | src/gfifo.rs:281-322 | a refused producer is never stuck: whoever holds the lock, a schedule linear in the backlogs and the two units carries its retry to publication, with nothing but the holder's unit published before it |
| GFifoProgress.HonestRunsKeepPromises | src/gfifo.rs:400-414 | in every interleaving where consumers drain only at batch tokens, no drain is ever promised a word that is not published |
| GFifoProgress.EmptyIsSaid | src/gfifo.rs:535-538 | an undisturbed `is_empty` over heads all published at the tail says true |
| GFifoProgress.BehindIsNotEmpty | src/gfifo.rs:535-538 | it says false at the first head behind the tail |
| GFifoProgress.EmptyAtAnswersExactly | src/gfifo.rs:540-544 | `is_empty_at` says true exactly at a whole number of laps; under a lap head `h` has then consumed and published everything; in general it has exactly when its register still reads as sampled |
| GFifoProgress.EmptyAtCanBeFooled | src/gfifo.rs:541-544 | a reachable state where it has said true with an entry unread |
| GFifoProgress.EmptyAtCanBeRightAfterALap | src/gfifo.rs:540-544 | a reachable state where it has said true a whole lap after its sample and the head has consumed everything |
| GFifoLag.PlainHeadLagsUnder64 | src/gfifo.rs:526-533 | over every interleaving and for every depth a head that drains no batches is published at most 63 entries behind its consumer |
| GFifoLag.CarefulHeadLagsUnder64 | src/gfifo.rs:526-533 | so is a head each of whose drains lands on a multiple of 64 or the tail or jumps no multiple of 64 |
| GFifoLag.DrainAddsToTheLag | src/gfifo.rs:442-484 | a drain and its consume add the whole batch to the lag unless they end on a multiple of 64 or at the tail |
| GFifoLag.DrainKeepsBoundExactly | src/gfifo.rs:396-484 | after a drain and its consume the lag is within 63 or about to be published exactly when the batch ends on a multiple of 64 or at the tail, or old lag and batch together fit |
| GFifoLag.DrainKeepsUpExactly | src/gfifo.rs:396-484 | a head that kept up still does after a drain exactly when the batch ends on a multiple of 64, ends at the tail, or holds no multiple of 64 past its token |
| GFifoLag.KeptUpHeadLagsUnder64 | src/gfifo.rs:457-484 | from a head at rest with no multiple of 64 in its lag, no run without a drain of its own exceeds 63 |
| GFifoLag.JumpedStopBreaksTheBound | src/gfifo.rs:457-484 | from a head at rest with a multiple of 64 in its lag and enough entries waiting, on a ring of a multiple of 64 slots, plain consumes alone bring the lag past 63 |
| GFifoLag.LagIsUnderTheRing | src/gfifo.rs:457-484 | a head at rest lags by at most the depth less two |
| GFifoLag.JumpedStopsAddUp | src/gfifo.rs:396-484 | for any plain entries and batches none of which ends on a multiple of 64, a reachable run that drains only at batch tokens leaves the consumer at rest with all of them in the lag |
| GFifoLag.LagReachesTheRing | src/gfifo.rs:526-533 | one-word batches alone reach every lag up to the depth less two that is not a multiple of 64 |
| GFifoLag.AnyBatchExceeds63 | src/gfifo.rs:526-533 | a batch of any length, behind 62 or 63 plain entries, leaves a lag over 63 |
| GFifoQueue.GFifo.constructor | src/gfifo.rs:103-106 | a zeroed ring is the step system's start |
| GFifoQueue.GFifo.SlowestHead | src/gfifo.rs:87-98 | the masked scan returns the residue of the least published counter |
| GFifoQueue.GFifo.Admit | src/gfifo.rs:154-166 | the cached test, then the exact one: admitted exactly when every published head leaves room; a refusal drops the lock |
| GFifoQueue.GFifo.TryPush | src/gfifo.rs:147-177 | on the stored residues and slots: refused when locked, else accepted exactly when there is room, and then the order grows by the entry |
| GFifoQueue.GFifo.TryPush2 | src/gfifo.rs:196-228 | the same for a pair |
| GFifoQueue.GFifo.TryPushSlice | src/gfifo.rs:233-264 | the same for any list, wrapping at the ring's end; the empty list always succeeds |
| GFifoQueue.GFifo.PushBatch | src/gfifo.rs:281-322 | one attempt of the retry loop: token, then each value under the payload address 0xFFFF_0003, published as one recorded batch, or nothing |
| GFifoQueue.GFifo.PeekAt | src/gfifo.rs:346-360 | nothing exactly when the head has reached the end of the order, else the entry at its position |
| GFifoQueue.GFifo.ConsumeAt | src/gfifo.rs:457-484 | the head moves one entry and is published at once if it met the tail |
| GFifoQueue.GFifo.FlushHeadAt | src/gfifo.rs:493-495 | publishes the head as it stands, also between a peek or drain and its consume, and changes nothing else |
| GFifoQueue.GFifo.DrainPayloadAt | src/gfifo.rs:396-448 | copies the n values behind the token in order across the wrap and leaves the head on the last of them; if not all are published it has copied those that are and waits on the tail, registers untouched |
| GFifoQueue.GFifo.IsEmpty | src/gfifo.rs:535-538 | uninterrupted, true exactly when every active head is published at the tail |
| GFifoQueue.GFifo.ResetHeads | src/gfifo.rs:553-561 | every active head restarts at the tail with nothing read; the published order stays |
| CowSpec.WholeDiskReads | src/block_node.rs:211-216 | on whole-sector disks every sector an in-range request touches can be read |
| CowSpec.PartialSectorReadsExactly | src/block_node.rs:253-257 | otherwise a range reads exactly when it avoids the last partial sector or that sector is dirty |
| CowSpec.AlignedDiscardIsExact | src/block_node.rs:463-473 | a whole-sector discard restores exactly its own bytes to the backing's |
| CowSpec.UnalignedDiscardSpreads | src/block_node.rs:463-473 | a byte outside an unaligned discard survives exactly when its sector is clear of the range, was clean, or held the backing's value |
| CowSpec.OneByteDiscardDropsANeighbour | src/block_node.rs:468-471 | a one-byte discard that undoes the writes of all 512 bytes of its sector and of no other |
| CowSpec.CommitOneMore | src/block_node.rs:526-532 | each sector copied by a commit, in any order, leaves the visible bytes as they were |
| CowSpec.CommitEnds | src/block_node.rs:533-535 | after all of them, with the overlay emptied, base and view are both the old view |
| CowSpec.ReopenedShowsExactly | src/block_node.rs:312-348 | for every disk and every sidecar: a reopened sector is shown exactly when the sidecar agrees with the dirty set there or names a layer holding the same bytes whole |
| CowSpec.StaleSectorAfterCommit | src/block_node.rs:516-538 | after a commit and any writes, a sector the old sidecar names and no write touched reads as zeroes exactly when a later sector was written, else not at all; so it is shown exactly when moreover its bytes are zeroes |
| CowSpec.StaleSidecarAfterCommit | src/block_node.rs:516-538 | after a commit and any writes the disk reopened from the old sidecar reads throughout exactly when past every sector it names and no write touched lies a written one; with no write, exactly when it named none |
| CowSidecar.LoadRestoresTheSet | src/cow_disk.rs:75-104 | loading what was saved restores the dirty set, whatever order it was walked in |
| CowSidecar.CutSidecarLoadsFewer | src/cow_disk.rs:83-86 | a sidecar cut short anywhere never invents a dirty sector |
| CowSidecar.SidecarLayout | src/cow_disk.rs:90-104 | the file is the count and then each entry in the order walked, eight bytes each, and no more |
| CowSidecar.LowByteFirst | src/cow_disk.rs:95-98 | each value is eight bytes, the lowest first |
| CowSidecar.BytesPastTheCountAreIgnored | src/cow_disk.rs:80-86 | the count is believed: bytes behind the entries it counts are not read |
| CowSidecar.SaveDirtySidecar | src/cow_disk.rs:90-104 | writes the count and each element once |
| CowSidecar.LoadDirtySidecar | src/cow_disk.rs:75-88 | missing or short files give the empty set; otherwise whole entries up to the count |
| CowNode.CowNode.constructor | src/block_node.rs:312-348 | opens with the dirty set its sidecar records |
| CowNode.CowNode.ReadSector | src/block_node.rs:368-377 | overlay, else backing, else zeroes; fails exactly when that layer lacks the whole sector, also on a disk reopened from a stale sidecar |
| CowNode.CowNode.Read | src/block_node.rs:408-426 | returns the current slice of the flat view for any alignment; errors exactly on out-of-range or unreadable sectors, however the disk was opened |
| CowNode.CowNode.Write | src/block_node.rs:428-452 | changes exactly its own bytes of the view for any alignment and makes exactly the touched sectors dirty; on an unreadable sector only a prefix of the bytes and the sectors before it; never done when it reaches a clean partial sector |
| CowNode.CowNode.Discard | src/block_node.rs:463-473 | releases every touched sector and nothing else |
| CowNode.CowNode.QueryStatus | src/block_node.rs:475-500 | a non-empty run in one state, as long as the range allows, with its backing offset |
| CowNode.CowNode.ReadByStatus | src/block_node.rs:76-77 | stepping by the status length ends, tiles the range, and resolving each run by its state gives what a read returns |
| CowNode.CowNode.CommitAll | src/block_node.rs:516-538 | counts the dirty sectors, empties the layer, leaves view and base at the old view; refuses without a base path; stops exactly if the overlay lacks a dirty sector, with some sectors copied and nothing shown changed |
| CowNode.CowNode.RollbackAll | src/block_node.rs:542-548 | the view becomes the last committed base; overlay and sidecar are gone, and a disk that could not be read throughout is sound again |
| CowNode.CowNode.FlushAll | src/block_node.rs:454-461 | the sidecar then loads to the dirty set |
| CowNode.CowNode.Reopen | src/block_node.rs:312-348 | comes up with the dirty set of the last sidecar, so a flushed disk is the same disk |
| CowNode.CowNode.ExportOverlay | src/block_node.rs:552-558 | the overlay's bytes and the dirty sectors in ascending order |
| CowNode.CowNode.ImportOverlay | src/block_node.rs:562-575 | takes both back; a missing overlay is an empty one |
| CowNode.CowNode.Run | src/block_node.rs:408-548 | over every run of writes, whole-sector discards, commits, rollbacks and flushes the layered disk of whole sectors is the flat one; over every run at all a clean partial last sector stays clean and unreadable |
| CowNode.CommittedSectorUnreadable | src/block_node.rs:516-538 | write, flush, commit, reopen, read: an error |
| CowNode.CommittedSectorReadsZero | src/block_node.rs:516-538 | write, flush, commit, write the next sector, reopen, read: success, and zeroes |
| CowDisk.SectorsAreTheView | src/cow_disk.rs:157-188 | sectors on the disk are what the byte-addressed read of them returns |
| CowDisk.RunIsOneRead | src/cow_disk.rs:166-181 | one read of a same-source run succeeds exactly when each of its sectors does, with the same bytes |
| CowDisk.CowDisk.ReadSectors | src/cow_disk.rs:157-188 | the batched read returns the disk's sectors, or fails exactly when one cannot be read, for every lba and count |
| CowDisk.CowDisk.WriteSectors | src/cow_disk.rs:192-204 | changes exactly the written bytes, makes exactly the written sectors dirty and readable, and never the base |
| Expr.TablesAgree | src/exp.rs:180-218 | the folder's operator tables agree with the evaluator's and refuse exactly where it fails |
| Expr.FoldPreservesEval | src/exp.rs:164-224 | a folded tree evaluates to the same value or the same error |
| Expr.FoldAbsorbs | src/exp.rs:164-224 | folding is idempotent, and folding without symbols first changes nothing |
| Expr.FoldKeepsUnknownNames | src/exp.rs:166-178 | folding removes exactly the names that resolve and keeps the rest in order |
| Expr.FirstOfSymbols | src/exp.rs:462-469 | reports the first name left, left to right |
| Expr.CheckedConditionIsSound | src/exp.rs:448-458 | accepted exactly when every name resolves; then it means the same under every later table; refused, it could evaluate on no core, and the first unknown name is reported |
| Expr.ConstValueExactly | src/exp.rs:474-481 | a constant exactly for closed trees that evaluate without error, with that value |
| Expr.OperandErrors | src/exp.rs:129-141 | an operand's error is the node's, the left one's first; no operator skips an operand |
| Expr.SymbolMeans | src/exp.rs:118-128 | a resolved name is its address, 32-bit addresses from 0x8000_0000 on moved to the top of the 64-bit space; otherwise the error with its reason |
| ExprParser.PrecedenceIsTheLevel | src/exp.rs:361-373 | an operator's precedence is its place in the ten levels, and nothing else is an operator |
| ExprParser.ParseExprSound | src/exp.rs:357-397 | any tree returned derives exactly the consumed tokens in the ten-level left-associative grammar, and no more could be consumed |
| ExprParser.ParseAtomSound | src/exp.rs:399-431 | the same for atoms, prefix operators and parentheses |
| ExprParser.ParseExprComplete | src/exp.rs:357-397 | every sentence parses to its own tree, consuming exactly its tokens, before anything that could not extend it |
| ExprParser.Unambiguous | src/exp.rs:357-431 | two sentences with the same tokens stand for the same tree |
| ExprParser.AcceptsExactlyTheGrammar | src/exp.rs:226-230 | a token list is accepted to its end exactly when a sentence spells it |
| ExprParser.AcceptsExactlyAPrefix | src/exp.rs:226-230 | with trailing tokens allowed, a parse succeeds exactly when a sentence begins the list and no binary operator follows it, and gives that sentence |
| ExprParser.ParseOfWritten | src/exp.rs:357-431 | parsing the minimally parenthesised rendering of any tree returns that tree |
| ExprParser.Parser.Consume | src/exp.rs:347-355 | the token at the position, if any, and the position past it |
| ExprParser.Parser.ParseExprAt | src/exp.rs:357-397 | the loop computes the specified result and position on every token list, and ends |
| ExprParser.Parser.ParseAtomHere | src/exp.rs:399-431 | so does the atom parser, with its four errors |
| ExprMeaning.PlusMeans | src/exp.rs:141-141 | `+`, on any operands of values x and y and written between two literals, is x + y modulo 2^64 |
| ExprMeaning.MinusMeans | src/exp.rs:142-142 | `-`, on any operands of values x and y and written between two literals, is x - y modulo 2^64 |
| ExprMeaning.TimesMeans | src/exp.rs:143-143 | `*`, on any operands of values x and y and written between two literals, is x * y modulo 2^64 |
| ExprMeaning.OverMeans | src/exp.rs:144-144 | `/`, on any operands of values x and y and written between two literals, is the unsigned quotient, an error exactly for a zero divisor |
| ExprMeaning.ModuloMeans | src/exp.rs:145-145 | `%`, on any operands of values x and y and written between two literals, is the unsigned remainder, an error exactly for a zero divisor |
| ExprMeaning.AndMeans | src/exp.rs:146-146 | `&`, on any operands of values x and y and written between two literals, is the bitwise and |
| ExprMeaning.OrMeans | src/exp.rs:147-147 | the bar, on any operands of values x and y and written between two literals, is the bitwise or |
| ExprMeaning.XorMeans | src/exp.rs:148-148 | `^`, on any operands of values x and y and written between two literals, is the bitwise exclusive or |
| ExprMeaning.LeftMeans | src/exp.rs:149-149 | `<<`, on any operands of values x and y and written between two literals, is x shifted left by the low six bits of y |
| ExprMeaning.RightMeans | src/exp.rs:150-150 | `>>`, on any operands of values x and y and written between two literals, is x shifted right by the low six bits of y |
| ExprMeaning.EqualMeans | src/exp.rs:151-151 | `==`, on any operands of values x and y and written between two literals, is 1 for equal operands, else 0 |
| ExprMeaning.UnequalMeans | src/exp.rs:152-152 | `!=`, on any operands of values x and y and written between two literals, is 0 for equal operands, else 1 |
| ExprMeaning.LessMeans | src/exp.rs:153-153 | `<`, on any operands of values x and y and written between two literals, is 1 exactly if x is below y, unsigned |
| ExprMeaning.AtMostMeans | src/exp.rs:154-154 | `<=`, on any operands of values x and y and written between two literals, is 1 exactly if x is at most y, unsigned |
| ExprMeaning.GreaterMeans | src/exp.rs:155-155 | `>`, on any operands of values x and y and written between two literals, is 1 exactly if x is above y, unsigned |
| ExprMeaning.AtLeastMeans | src/exp.rs:156-156 | `>=`, on any operands of values x and y and written between two literals, is 1 exactly if x is at least y, unsigned |
| ExprMeaning.BothMeans | src/exp.rs:157-157 | `&&`, on any operands of values x and y and written between two literals, is 1 exactly if neither is 0 |
| ExprMeaning.EitherMeans | src/exp.rs:158-158 | the double bar, on any operands of values x and y and written between two literals, is 0 exactly if both are 0 |
| ExprMeaning.NegateMeans | src/exp.rs:132-132 | prefix `-`, on any operand of value x and written before a literal, is 0 - x modulo 2^64 |
| ExprMeaning.NotMeans | src/exp.rs:133-133 | prefix `!`, on any operand of value x and written before a literal, is 1 for 0, else 0 |
| ExprMeaning.ComplementMeans | src/exp.rs:134-134 | prefix `~`, on any operand of value x and written before a literal, is the bitwise complement |
| ExprMeaning.TwoOperators | src/exp.rs:357-397 | of two operators written in a row the tighter takes its operands first, of equally tight ones the left |
| ExprMeaning.LoneTokens | src/exp.rs:399-409 | a literal parses to itself, a name to its register or else a symbol |
| ExprMeaning.LoneValues | src/exp.rs:114-117 | a literal evaluates to itself, a register to what the core holds there |
| ExprMeaning.WrongBeginnings | src/exp.rs:399-431 | an empty list, a closing parenthesis, an operator that is no prefix and an unclosed parenthesis each give their own error |
| TimerSafety.StepKeepsInv | src/hptimer.rs:80-381 | every locked section keeps arena, queue, callback and schedule consistent |
| TimerSafety.ReachableInv | src/hptimer.rs:261-381 | in every state reached before a generation wraps, interference during callbacks included |
| TimerSafety.ArenaIsConsistent | src/hptimer.rs:80-110 | the free list is exactly the empty slots, each once; a live timer is marked queued exactly when one entry is its own; its callback is absent exactly while the worker holds it |
| TimerSafety.StaleIdsAreInert | src/hptimer.rs:100-110 | an id acts on its slot's present timer exactly when the generations agree, so never on a later one within 2^32 allocations |
| TimerSafety.StaleTicketIsDropped | src/hptimer.rs:286-300 | a queued ticket whose timer was replaced is dropped and the newcomer neither called nor changed |
| TimerSafety.NewcomerIsUntouched | src/hptimer.rs:333-336 | a callback returning to a slot reused meanwhile changes nothing there |
| TimerSafety.DeadlinesDoNotDrift | src/hptimer.rs:343-357 | the k-th firing of a timer that keeps continuing answers start + k period, never early, however late the worker is |
| TimerSafety.DispatchIsBounded | src/hptimer.rs:321-356 | from the look that begins a dispatch to the next, whatever callers do meanwhile, the worker makes at most eight calls and sees no more returns |
| TimerSafety.EveryChargeIsACall | src/hptimer.rs:286-356 | a step that hands a callback to the worker puts exactly one firing, at the present time, on the record of the timer called; no other step puts any on any |
| TimerSafety.OneShotFiresOnce | src/hptimer.rs:357-359 | a one-shot that continues fired once, on time, and its slot is freed |
| TimerSafety.OutcomesDoAsAsked | src/hptimer.rs:361-374 | disable, delete and the two reschedules do to the callback's own timer what they say, the recurring one counted from the deadline just answered; every other slot is as it was |
| TimerSleep.WakeupIsEarliest | src/hptimer.rs:302-317 | the wake-up time is the earliest deadline of the enabled, unqueued timers |
| TimerSleep.TicketsMoveUp | src/hptimer.rs:274-300 | whatever callers and callbacks do, each look moves every queued ticket up by one place |
| TimerSleep.TicketIsTakenInTurn | src/hptimer.rs:274-300 | a ticket with j before it is taken by the look after j more, which calls its timer exactly if it is then there and enabled |
| TimerSleep.SleepsExactly | src/hptimer.rs:286-317 | the worker sleeps exactly on an empty queue or a dead head, and leaves an expired timer waiting exactly when a callable ticket lies behind that head |
| TimerSleep.WorkerCanOversleep | src/hptimer.rs:286-317 | a reachable state asleep without a wake-up time and an expired timer queued |
| TimerLaws.ScanQueuesTheExpired | src/hptimer.rs:274-284 | the scan queues exactly the enabled, unqueued timers whose deadline has passed, one-shot or recurring, in slot order behind what was queued |
| TimerLaws.ExpiredIsQueuedOrCalled | src/hptimer.rs:274-300 | after a look every such timer waits in the queue or is being called |
| TimerLaws.OnlyExpiredAreQueued | src/hptimer.rs:274-300 | and a ticket new to the queue, or called without having been in it, is such a timer's |
| TimerLaws.SwitchesDoAsAsked | src/hptimer.rs:208-237 | disable switches the named timer off and enable on; nothing else changes, and a stale id changes nothing |
| TimerLaws.DisabledIsNotCalled | src/hptimer.rs:224-237 | over every run from a disable to an enable of the same id, no step hands that timer's callback to the worker, queued ticket and catch-up included |
| TimerLaws.NewTimersAreAsAsked | src/hptimer.rs:164-199 | a new timer is due after its delay or at its time, enabled, with the period asked for, in the slot freed last or a new one; every other slot is as it was |
| TimerLaws.RemoveDoesAsAsked | src/hptimer.rs:100-110 | remove empties the named slot and puts it last on the free list |
| TimerLaws.StopHaltsTheWorker | src/hptimer.rs:269-330 | once told to stop the worker halts at its next locked section and changes nothing else |
| TimerLaws.CatchesUpExactly | src/hptimer.rs:343-357 | a continuing recurring callback moves its deadline by one period and is called again exactly if that has passed, the timer is enabled and fewer than eight calls were made |
| TimerManager.TimerManager.constructor | src/hptimer.rs:123-129 | an empty manager is the step system's start |
| TimerManager.TimerManager.Allocate | src/hptimer.rs:80-98 | reuses the last freed slot under a new generation; the id packs both |
| TimerManager.TimerManager.Deallocate | src/hptimer.rs:100-110 | empties the named slot, and reports whether the id named one |
| TimerManager.TimerManager.AddOneShot | src/hptimer.rs:164-180 | stores an enabled entry due after the delay, without a period; the id packs its slot and generation |
| TimerManager.TimerManager.AddRecurring | src/hptimer.rs:183-199 | stores an enabled entry first due at the given time with its period; the id packs its slot and generation |
| TimerManager.TimerManager.SetEnabled | src/hptimer.rs:208-237 | switches the named timer only |
| TimerManager.TimerManager.ScanExpired | src/hptimer.rs:274-284 | the loop queues the newly expired timers in slot order |
| TimerManager.TimerManager.NextWakeup | src/hptimer.rs:302-317 | the loop computes the specified wake-up time |
| TimerManager.TimerManager.PopOldest | src/hptimer.rs:286-300 | takes the oldest ticket and begins its call if its timer is live and enabled |
| TimerManager.TimerManager.TakeLook | src/hptimer.rs:267-318 | one locked turn of the worker is the step the theorems are about |
| TimerManager.TimerManager.FinishCall | src/hptimer.rs:327-378 | so is the handling of each callback result, catch-up included |
| Calendar.CivilOfDaysOfCivil | src/config.rs:1217-1237 | every valid date is recovered from its day number |
| Calendar.DaysOfCivilOfDays | src/config.rs:1217-1237 | every integer day number gives a valid date whose number it is |
| Calendar.NextDateIsNextDay | src/config.rs:1206-1225 | the calendar's next date has the next day number |
| Calendar.DaysFollowTheCalendar | src/config.rs:1227-1237 | consecutive day numbers are consecutive Gregorian dates and day 0 is 1970-01-01 |
| RtcOffset.OffsetIsStepThenDuration | src/config.rs:1154-1173 | an offset whose fields are bounded, years and months below 2^62 months and the rest below 2^63 less 3*10^11 seconds, is at every time the month step cut to years 0 to 10000 followed by the plain duration |
| RtcOffset.MonthsLandOnTheirMonth | src/config.rs:1161-1166 | a month step lands in its month at the same time of day, on the same day or the month's last |
| RtcOffset.MonthsLandOnTheDay | src/config.rs:1161-1166 | its date is in the month so many months on, cut to years 0 to 10000, on the same day or, exactly if that month is too short, on its last |
| RtcOffset.OffsetLandsOnItsMonth | src/config.rs:1154-1173 | the same of years and months together, with any moderate duration taken off |
| RtcOffset.SecondsStopAtTheEnds | src/config.rs:1168-1172 | seconds alone are added exactly, stopping at the ends of 64 bits |
| RtcOffset.ZeroOffsetIsIdentityExactly | src/config.rs:1154-1173 | no offset is the identity exactly from January of year 0 to January of year 10000 |
| RtcOffset.MonthsUndoneExactly | src/config.rs:1161-1166 | a month step forward and back returns exactly when the target month holds the day |
| RtcOffset.ClampedFitsTheClock | src/config.rs:1177-1181 | the clamped time is the asked one from 1970 to 2039, the nearer end outside, flagged exactly when it differs |
| Ip30.WindowsApart | src/ip30.rs:44-52 | no two windows of the switched ports meet |
| Ip30.WindowAddresses | src/ip30.rs:44-52 | a port's windows in bytes: 16 MiB at 0x1000_0000 plus w times 16 MiB, 64 GiB at w times 64 GiB, for ports 9 to 15 |
| Ip30.FilledRoundsUp | src/ip30.rs:142-148 | mapping a range fills every 4 KiB slot it touches |
| Ip30.LastRunWins | src/ip30.rs:224-229 | where runs overlap the one listed last answers |
| Ip30.Ip30Bus.constructor | src/ip30.rs:133-140 | every window starts as the bus error |
| Ip30.Ip30Bus.AttachWidget | src/ip30.rs:152-155 | changes no window, which is right exactly while the link is down or the same widget was there; the next link report puts right a port that had none |
| Ip30.Ip30Bus.MapRuns | src/ip30.rs:224-229 | lays the runs over the window, the later over the earlier, and touches nothing else |
| Ip30.Ip30Bus.SetWidgetLink | src/ip30.rs:176-199 | the port's small window becomes the function of the new link state and current runs whatever came before, its large one exactly when the widget has one or it was a bus error; all other ports stay |
| Ip30.OldWidgetStaysInLargeWindow | src/ip30.rs:152-199 | attach with a large window, link up, attach without one, link down: the first widget still answers in the large window |
| Ip30.Ip30Bus.SetWidgetRuns | src/ip30.rs:204-222 | no trace of the old runs is left, the new ones lie over the widget while the link is up |
| Ip30.Ip30Bus.LinkReadsOffTheTable | src/ip30.rs:212-216 | the window's first slot answers as the widget exactly while the link is up |
| Ip30.Ip30Bus.WindowsAnswer | src/ip30.rs:176-233 | what answers each slot, said of the table itself: the bus error while down or unattached, else the last run covering it or the widget; in the large window the widget if it has one |
| Ip30.Ip30Bus.Replay | src/ip30.rs:176-233 | after any sequence of link and BAR events every window is the function of the latest link state and runs |
| ChunkStore.PathEncodesTheHash | src/chunk_store.rs:111-112 | the collector reads off a chunk's path exactly the hash it was made from |
| ChunkStore.PathsAreDistinct | src/chunk_store.rs:140-145 | different hashes have different paths, and no temporary file has a chunk's |
| ChunkStore.PathSpellsTheHash | src/chunk_store.rs:140-156 | directory and name are the lower-case hexadecimal digits of the hash, two and sixty-two, and `.chunk`; the temporary file lies beside it |
| ChunkStore.DigitsRead | src/chunk_store.rs:171-178 | both cases of the sixteen digits are read, and nothing else |
| ChunkStore.TemporariesStay | src/chunk_store.rs:111-113 | a temporary file's name is no hash, so the collector never removes one |
| ChunkStore.BytesAreBigEndian | src/chunk_store.rs:185-205 | the byte stream is big-endian, word after word |
| ChunkStore.ChunkSizes | src/chunk_store.rs:185-195 | every chunk but the last is 64 KiB; the last is not empty and no longer |
| ChunkStore.PutThenGetExactly | src/chunk_store.rs:65-91 | what was put is got back exactly when no other content sat under its hash |
| ChunkStore.InterruptedPutIsSafe | src/chunk_store.rs:57-83 | a put cut off at any byte of its temporary file leaves every chunk and every snapshot as it was, and putting again ends as if it had never begun |
| ChunkStore.GcRemovesExactlyTheDead | src/chunk_store.rs:99-123 | a chunk survives collection exactly when live; unparseable files always do |
| ChunkStore.LiveChunksSurvive | src/chunk_store.rs:65-123 | a stored chunk never changes under any puts and collections that count it live |
| ChunkStore.SnapshotRoundTrip | src/chunk_store.rs:185-228 | words stored without a hash collision read back whole, partial last chunk included, then and after any such later operations |
| ChunkStore.ChunkStore.PutChunk | src/chunk_store.rs:65-83 | through a temporary file, or nothing if already there |
| ChunkStore.ChunkStore.CollectGarbage | src/chunk_store.rs:99-123 | visiting the files in any order removes exactly the dead ones, with their count and bytes |
| ChunkStore.PutWordsAsChunks | src/chunk_store.rs:185-205 | the loop over one reused buffer stores the chunks of the words in order |
| ChunkStore.GetChunksAsWords | src/chunk_store.rs:210-228 | the concatenated words, or the first missing or misshapen chunk's error |
| ChunkStore.FirstBadChunk | src/chunk_store.rs:215-223 | the first missing or misshapen chunk in order decides the error |
| ChunkStore.WriteHex | src/chunk_store.rs:148-156 | two digits a byte, which decode back to the bytes |
| ChunkStore.ReadHex | src/chunk_store.rs:158-169 | refuses wrong lengths and any non-digit, else the bytes |
| Resampler.CountIsCeiling | src/host_audio.rs:76-84 | an accumulator inside one input step pins the output count to the ceiling |
| Resampler.PositionIsExact | src/host_audio.rs:51-53 | output k falls at exactly k in_rate / out_rate inputs |
| Resampler.Resampler.Push | src/host_audio.rs:68-85 | each input emits the outputs that fall in its step and keeps emitted in_rate - inputs out_rate equal to the accumulator |
| Resampler.Resampler.PushMany | src/host_audio.rs:68-85 | after N inputs exactly ceil(N out_rate / in_rate) outputs, each at its exact position, for any N |

## Left out

- Memory ordering: acquire and release accesses of the FIFO are taken as sequentially consistent, and a slot's two words as written together.
- FIFO `len`, `len_at` and `consumed`: approximate under concurrency and unused by any theorem here.
- `push` and the retry loop of `push_batch`: repeated attempts of `TryPush` and `PushBatch`; that a retry succeeds is `RefusedPushGetsThrough`.
- GFifoProgress.RefusedPushGetsThrough: assumes that no drain was promised words that are not published; `HonestRunsKeepPromises` gives that wherever consumers drain only at batch tokens, as the code's do.
- Negation of the smallest 64-bit value: taken as wrapping, as in a release build.
- Turning text into tokens, register naming and symbol tables: tokens, register reads and resolution are given functions.
- Host file errors, fsync, reflink and the CHD backends: files are byte sequences that can be read and written; short reads are modelled.
- CowNode.CommitAll: the file behind the backing node is the file a commit writes.
- The sector disk's own commit, reset, flush, export and import: the layered node's say the same and are modelled.
- TimerSafety.ReachableInv: assumes that no slot has yet been allocated 2^32 times; `StaleIdsAreInert` says exactly what a wrapped generation does.
- Parking, spinning and wall-clock behaviour of the timer thread: time is a value that never goes back, and a sleeping worker may look again at any step.
- Ip30Bus.SetWidgetRuns: runs are slot-aligned, inside the window and clear of its first page, as the bridge builds them; `Physical` is a table from slot to device.
- ChunkStore.SnapshotRoundTrip: hash collisions among the contents that meet are excluded by hypothesis; the hash is otherwise arbitrary.
- Resampler sample values: floating-point interpolation and a full output ring are not modelled.
- Memory remapping, cached flash lines, the disc changer, configuration parsing, graphics, networking and the processor itself: not part of this model.
