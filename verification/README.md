# DigiByte wallet core: a verified model

A Dafny model of the parts of the wallet core that decide what was scanned, what a header must say, and how keys,
addresses, filters and amounts are written. `dafny verify dfyconfig.toml` checks all of it.

**The compact-filter scan ledger** (`SortedHoles`, `LedgerSpec`, `ScanLedger`). The ledger records which block heights
still need their filter looked at: two sorted hole lists (`outstanding`, and `gaveUp` with two parallel byte arrays),
three marks (`start`, `scannedThrough`, `requestedThrough`) and a floor, `abandonedBelow`. `LedgerSpec` says what each
operation makes of a ledger value, with 32-bit heights and 8-bit counters wrapping where the code lets them.
`ScanLedger.Ledger` is the class over arrays: every operation shifts and edits in place, and its contract ties the new
value to the specification. On top of it:
- `LedgerHistory` adds what the ledger does not store (what was evaluated, evicted or abandoned) and follows every run
  of operations. A run is lawful when requested ranges are contiguous or start at or below the floor, header races
  name at most the next height, and heights stay below 2^32 - 1: what the ledger asks of the peer manager.
  `LedgerMarks`, `LedgerEvidence`, `LedgerRetries`, `LedgerSpacing`, `LedgerEvictions` and `LedgerOverlap` prove what
  the marks, the abandonment evidence, the retry budget, the pauses between offers, a full list and the two lists mean
  over runs; `LedgerRecords` says what each call does to each height's record, without positions in a list;
  `LedgerWitnesses` holds concrete runs.
- `LedgerBlob` is the stored form, and `LedgerLayout` says which byte is where; `RestorePreflight` is the cold-start
  decision that reads the same bytes; `Abandonment` and `AbandonmentRecord` are the verdicts drawn from a ledger's
  scalars and the record kept of them.

**Chain verification.** `Limbs256`, `CompactTarget` and `DifficultyV4` are the eight-limb arithmetic and the
MultiShield V4 difficulty rule; `MerkleTree` and `PartialMerkle` the full-list root with its duplicate defence and the
partial branches of BIP 37, `MerkleNames` what a block with the right root can name; `FilterHeaders` and `FilterChain`
the filter-header chain of BIP 157; `GcsCoding` and `GcsFilter` the filters of BIP 158. Hash functions are parameters;
injectivity on pairs is assumed only where a lemma says so.

**Codecs that undo each other.** `Radix` and `Base58`; `Bech32Code`, `Bech32Groups`, `Bech32`, `Bech32Reencode`,
`Bech32Encoder` and `Bech32Decoder` (BIP 173, BIP 350); `AmountText`, `AmountParse` and `AmountFormat`; and
`AesTables`, `AesField`, `AesCipher` and `AesBlock` (FIPS 197). Each has a specification over values, a proof of the
round trip on it, and methods with the code's own loops proved equal to it. A round trip alone leaves a coding free to
differ from everyone else's, so they are also tied to what others fixed: `AesBox` and `AesStandard` to the box, key
expansion and cipher as FIPS 197 defines them, `Bech32Field` to the generator polynomial of BIP 173, `Bech32Vectors`
to an address of BIP 173 and one of BIP 350, and `WorkedExamples` to single values of the other codings.

`FixedWidth`, `Options`, `Arithmetic`, `Sorting`, `LittleEndian`, `ExclusiveOr` and `ByteWords` hold what these share.

Where the code and its comments disagree the model follows the code; each time there is a lawful run or an input that
shows it, and a lemma that says when the comment does hold, exactly where nothing else is said:
- `BRCFScanLedger.h:625` says a height cannot be in both hole lists. A header race, or a request, of a parked height
  puts it in both (`LedgerWitnesses.ListsCanOverlap`); `LedgerOverlap.StepKeepsApart` gives the condition call by call
  and `LedgerOverlap.ListsStayApart` run by run, counting the heights that a request into a full list pushes out
  again.
- With a height in both lists a parked latch can go stale (`LedgerWitnesses.VerdictCanBeStale`).
  `LedgerEvidence.StepKeepsVerdicts` and `LedgerEvidence.VerdictsStayTrue` say exactly when parked verdicts stay true.
- `BRCFScanLedger.h:444-446` says the floor is monotonic and raised only by `AbandonGaveUpBelow`, never past an
  outstanding hole. `AbandonUnscannableBelow` raises it too, past outstanding holes
  (`LedgerWitnesses.FloorCanPassOutstanding`), and `RetireAbandonedTo` lowers it. `LedgerMarks.FloorPasses`,
  `LedgerMarks.FloorRises` and `LedgerMarks.OnlyRetireAndRewindLower` say exactly when it does each.
- `BRCFScanLedger.h:922` says a refused blob leaves an empty ledger. `Parse` leaves the fields read so far
  (`LedgerBlob.RefusedCanLeaveMarks`); `LedgerBlob.RefusedIsEmpty` says when it is empty.
- `BRCFScanLedger.c:50-52` calls the closed form of the mark equivalent to the one-height walk. It is not after a
  height below the mark is reopened (`LedgerWitnesses.ClosedFormCanStay`). `LedgerMarks.AdvanceIsWalkIff` gives the
  exact condition, and `LedgerMarks.ForwardRunsWalk` runs that keep it.
- `BRCFScanLedger.h:813-814` says a rewind above all that was requested changes nothing, and that the answer tells
  whether anything changed. Such a rewind can let the mark catch up and answer 0
  (`LedgerWitnesses.RewindCanStaySilent`); `LedgerMarks.RewindFlagTells` gives the exact condition.
- `BRCFAbandonment.h:25-31` asks whether every height of the band was evaluated. The verdict also passes a height that
  fell out of a full list (`LedgerWitnesses.VerdictCanRestOnEviction`; `Abandonment.VerdictIsSound` has both arms).
  `LedgerEvictions.StepEvicts` says exactly which calls evict nothing, `LedgerEvictions.NothingFallsOut` exactly which
  runs; after such a run a verdict means what the comment says (`Abandonment.VerdictIsTrue`), and after any run
  `Abandonment.VerdictHoldsIff` says exactly when it does.
- `BRCFAbandonmentRecord.h:83` calls it a recovery that the scan covered the band again. The frontier's two phases ask
  nothing of the ledger's start, so heights of the band below it may never have been looked at
  (`LedgerWitnesses.RecoveryCanStartBelow`). With the start at or below the band the recovery does cover it
  (`AbandonmentRecord.RecoveryCoversBand`; this way only).
- `BRCFScanLedger.h:196` caps a height's attempts at five. A commit of a range no peek named passes the cap
  (`LedgerWitnesses.UnpeekedCommitsPassTheCap`); `LedgerRetries.StepKeepsCap` and `LedgerRetries.CapHoldsIff` say
  exactly which commits and runs do, and `LedgerRetries.AttemptsStayCapped` that those of peeked runs do not.
- `BRCompactFilterChain.c:189-198` has the checkpoint check judge what an append would store. A header whose height
  wraps meets the checkpoint at the wrapped height (`FilterHeaders.WrappedReport`);
  `FilterHeaders.CheckForeseesAppend` gives the exact condition, and `FilterHeaders.CallerForesees` what the caller's
  own choice of checkpoints leaves of it.
- `BRMerkleBlock.c:325-326` has the walk treat the root as invalid when a row pairs equal nodes. A pair found under a
  right child only makes that child count as missing (line 341), so where an inner node has no sibling the root comes
  out right and the other walk names the pair (`MerkleNames.MissingPairIsNamed`). `MerkleNames.RootDecidesIff` says
  for exactly which counts of transactions the root decides what a block can name.

## Model

| member | source | states |
|---|---|---|
| `LedgerHistory.NoSilentLoss` | BRCFScanLedger.c:53-66 | After any lawful run of operations from a fresh ledger, every height from the start up to the highest requested one is evaluated, outstanding, parked, evicted from a full list or was once below the floor; every height up to the scan mark is evaluated, evicted or once abandoned; and the three marks stay in order |
| `LedgerHistory.RunKeeps` | BRCFScanLedger.c:47-66 | Every lawful run from an accounted-for ledger ends in one: lists sorted and within their caps, holes between floor and highest request, no requested height lost, no height under the mark skipped unseen, and a zero floor means nothing was ever abandoned |
| `LedgerHistory.AdvanceKeeps` | BRCFScanLedger.c:53-66 | Moving the scan mark to just below the first hole passes settled heights only |
| `LedgerHistory.RequestKeeps` | BRCFScanLedger.c:425-446 | Recording a contiguous range, or one at the floor, keeps the account, with every evicted height on record |
| `LedgerHistory.HeaderRaceKeeps` | BRCFScanLedger.c:471-488 | A header race at most one above the highest request keeps the account, even when it silently evicts the lowest hole of a full list |
| `LedgerHistory.ReArmRunKeeps` | BRCFScanLedger.c:745-790 | Re-arming a run of parked heights keeps the set of holes, the floor and the highest request |
| `LedgerHistory.RewindKeeps` | BRCFScanLedger.c:1002-1020 | A rewind forgets the history at or above its height and keeps the account of the rest, although the mark may then catch up |
| `LedgerEvictions.RangeStays` | BRCFScanLedger.c:425-446 | Of the heights held and requested, a request leaves exactly the last one requested and those with fewer than 4095 others above them, and nothing falls out if and only if they all fit |
| `LedgerEvictions.StepEvicts` | BRCFScanLedger.c:383-488 | A call evicts nothing if and only if the heights held and requested together fit the list, or for a header race the height is below the floor, already there or there is room: a test before the call; no other call evicts |
| `LedgerEvictions.NothingFallsOut` | BRCFScanLedger.c:346-412 | A lawful run never has an eviction on record if and only if everything its calls add fits |
| `LedgerEvictions.RecordTells` | BRCFScanLedger.c:346-446 | The record of a run tells what its calls did: a height counts as evicted if and only if some call pushed it out and no later rewind cut it, and as evaluated if and only if some call reported it and no later rewind cut it |
| `LedgerMarks.HolesStayInRange` | BRCFScanLedger.c:876-1000 | In every lawful run both hole lists are strictly ascending and within their arrays, and every hole lies between the floor and the highest requested height |
| `LedgerMarks.OnlyRetireAndRewindLower` | BRCFScanLedger.c:876-1020 | For every state and operation, each mark falls if and only if: the floor, a retirement to a lower floor not below the start, which changes nothing else; the scan mark, the highest request or the start, a rewind to a height at or below them (below, for the start), which leaves the floor alone |
| `LedgerMarks.FloorRises` | BRCFScanLedger.c:891-1000 | The floor rises if and only if an abandoning call meets its guard: a parked hole below the clamp and every outstanding hole, or a given floor above the surfaced low edge |
| `LedgerMarks.FloorPasses` | BRCFScanLedger.c:891-1000 | A hole that was outstanding lies below the floor after a call if and only if the call is the second abandoning one, it raises the floor, and the floor given is above the lowest outstanding hole |
| `LedgerWitnesses.FloorCanPassOutstanding` | BRCFScanLedger.c:954-1000 | A lawful run after which the second abandoning call raises the floor past a hole still outstanding |
| `LedgerMarks.AbandonGaveUpIsSurfaced` | BRCFScanLedger.c:891-952 | The floor rises exactly when heights are counted, never past an outstanding hole, and every in-scope height it newly covers was settled before or parked |
| `LedgerMarks.AbandonUnscannableIsSurfaced` | BRCFScanLedger.c:954-1000 | The floor rises exactly when heights are counted, then to the given floor; the surfaced span starts at or above the old floor and, for a low edge at or above the start, above the scan mark |
| `LedgerMarks.RewindCuts` | BRCFScanLedger.c:1002-1020 | After a rewind nothing at or above its height is scanned, requested or a hole, and every lower hole is still there |
| `LedgerMarks.RewindIsIdempotent` | BRCFScanLedger.c:1002-1020 | A second rewind to the same height changes nothing and reports so |
| `LedgerMarks.RewindFlagTells` | BRCFScanLedger.c:1002-1020 | A rewind changes nothing if and only if its height is 0, or is not below the start and above everything requested while the mark has nothing to catch up with; its flag tells whether the ledger changed if and only if the height is 0, below the start or not above everything requested, or the mark has nothing to catch up with |
| `LedgerWitnesses.RewindCanStaySilent` | BRCFScanLedger.c:1002-1020 | A lawful run after which a rewind answers that nothing was cut while the scan mark moves |
| `LedgerMarks.AdvanceIsWalkIff` | BRCFScanLedger.c:47-66 | The closed form of the mark equals the one-height walk exactly when every hole is above the mark, or the walk cannot take its first step |
| `LedgerWitnesses.ClosedFormCanStay` | BRCFScanLedger.c:53-66 | A lawful run that reopens a height below the mark, after which the closed form stays and the one-height walk goes on |
| `LedgerMarks.ForwardRunsWalk` | BRCFScanLedger.c:47-66 | In every run that never re-requests or header-races a height at or below the mark, every hole stays above the mark and every advance is the one-height walk |
| `LedgerEvidence.EvidenceIsSound` | BRCFScanLedger.c:111-131 | In every lawful run a hole's re-arm count never exceeds the re-arms its height received, and a set latch means no missed offer or lost peer touched the height since it was armed: always for an outstanding hole, and for a parked one unless an operation of the run touched its height while a hole was parked there with its latch set |
| `LedgerEvidence.StepKeepsVerdicts` | BRCFScanLedger.c:492-507 | While every parked verdict is true, an operation keeps them all true if and only if it touches no height parked with its latch set, which a caller can check on both lists |
| `LedgerEvidence.VerdictsStayTrue` | BRCFScanLedger.c:111-131 | A lawful run keeps every parked verdict true throughout if and only if none of its operations touches such a height |
| `LedgerWitnesses.VerdictCanBeStale` | BRCFScanLedger.c:471-488 | The exception is real: a concrete lawful run ends with a parked hole whose latch is set although a later missed offer touched its height, because a header race put the height in both lists |
| `LedgerOverlap.StepKeepsApart` | BRCFScanLedger.c:383-488 | While no height is in both lists, a header race keeps it so if and only if its height is below the floor or not parked, a request if and only if no parked height of its clamped range is among those it leaves in the list, every other operation always |
| `LedgerOverlap.ListsStayApart` | BRCFScanLedger.c:383-488 | A lawful run never has a height in both lists if and only if none of its calls leaves a parked height there; so when it never names a parked height at or above the floor, and only then if everything it adds fits |
| `LedgerWitnesses.ListsCanOverlap` | BRCFScanLedger.c:471-488 | A lawful run that ends with one height in both lists |
| `LedgerRetries.RetireLeavesUncapped` | BRCFScanLedger.c:557-567 | With room among the parked for every capped entry, retiring leaves exactly the uncapped entries, in order |
| `LedgerRetries.RetireClearsCapped` | BRCFScanLedger.c:557-567 | In particular no capped entry is left when the parked list has room for all of them |
| `LedgerRetries.OfferCostsOne` | BRCFScanLedger.c:569-589 | The sum of (5 - attempts) falls by exactly one for an offer and not at all for a call that offers nothing |
| `LedgerRetries.OffersAreBounded` | BRCFScanLedger.c:569-589 | From any ledger at all, sorted and capped or not, repeated calls of the single driver make at most five offers for each hole outstanding at the start |
| `LedgerRetries.OfferedRunUnique` | BRCFScanLedger.c:597-626 | The run a peek names (contiguous, due, one peer, at most 1000 long, as long as it may be, from the lowest offerable hole) is determined by the list, the clock and the floor |
| `LedgerRetries.CommitSpendsRun` | BRCFScanLedger.c:628-640 | Committing any part of a peeked run costs one offer for each of its heights, passes no attempt cap and changes no other entry |
| `LedgerRetries.StepKeepsCap` | BRCFScanLedger.c:569-640 | From attempts within the cap, a commit keeps them so if and only if no hole of its range has had all five, and every other operation keeps them so |
| `LedgerRetries.CapHoldsIff` | BRCFScanLedger.c:569-640 | In a lawful run no attempt count ever passes five if and only if no commit touches a hole that has had all its attempts |
| `LedgerRetries.AttemptsStayCapped` | BRCFScanLedger.c:569-640 | So in every lawful run whose commits are of runs that a peek names, no attempt count ever passes five |
| `LedgerRetries.OffersSpendBudget` | BRCFScanLedger.c:456-640 | From any capped ledger, over any operations that refill nothing, in any order, offers made plus offers left never pass the offers there were, and equal them when no outstanding hole is dropped |
| `LedgerRetries.RetriesTerminate` | BRCFScanLedger.c:514-640 | After any lawful run whose commits are peeked, a stretch without new requests, header races, re-arms or a restart makes at most five offers for each hole outstanding at its start, whatever else happens in it |
| `LedgerWitnesses.UnpeekedCommitsPassTheCap` | BRCFScanLedger.c:628-640 | Commits of ranges no peek named pass the cap: a lawful run reaches six attempts |
| `LedgerRetries.RunIsLongest` | BRCFScanLedger.c:597-626 | The run a peek names has at most 1000 heights, and leaves out the next contiguous offerable height of the same target only when it has 1000 |
| `LedgerSpacing.OfferableWhen` | BRCFScanLedger.c:514-556 | A hole may be offered if and only if it has had fewer than five offers and its pause is over: 30, 60, then 120 s after the last request or offer, 10 s for the first try of a header race |
| `LedgerSpacing.StepStamps` | BRCFScanLedger.c:569-640 | A call that does not ask for a height anew leaves the time, the attempts and the race on record of it as they were, or offers it: then the pause is over, and the record shows one offer more, at that time |
| `LedgerSpacing.OffersAreSpaced` | BRCFScanLedger.c:514-640 | Over any lawful run of either driver and every other call in which a height is not asked for anew, each two successive offers of it are at least min(30 * 2^attempts, 120) s apart, attempts counted after the first of the two, and there are at most five in all |
| `LedgerSpacing.RequestStamps` | BRCFScanLedger.c:425-446 | A request of a height that is not outstanding puts it on record as asked for at that time, with no attempt made |
| `LedgerSpacing.FiveOffersTake450` | BRCFScanLedger.c:425-640 | A plain new hole is first offered 30 s or more after its request, and five offers of it take at least 450 s, whatever else happens in the run |
| `LedgerRecords.RequestRecords` | BRCFScanLedger.c:425-446 | After a request every entry outside the range is one from before; inside, a height that stayed keeps its past and takes the target and the time, and any other one is new |
| `LedgerRecords.RaceRecords` | BRCFScanLedger.c:471-488 | After a header race its height is flagged, with its past if it was outstanding and with nothing else on record if not; every other entry is one from before |
| `LedgerRecords.LosePeerRecords` | BRCFScanLedger.c:492-507 | Losing a peer takes the target and the latch from its holes, keeps their time and attempts, and changes nothing else |
| `LedgerRecords.MissedRecords` | BRCFScanLedger.c:792-799 | Offers that missed their peer take the latch from the holes of the range, and nothing else changes |
| `LedgerRecords.CommitRecords` | BRCFScanLedger.c:628-640 | A commit gives each hole of its range one attempt more, the time and the target, and changes nothing else |
| `LedgerRecords.NextRecords` | BRCFScanLedger.c:569-589 | A call of the single driver retires, notes the time, and gives the first offerable hole one attempt more at that time, with its target as it was; nothing else changes |
| `LedgerRecords.RetireRecords` | BRCFScanLedger.c:557-567 | Retiring leaves what may still be offered; an entry that has had its five offers is parked with the higher re-arm count and the weaker latch of the two records, or stays if its height was not parked and there is no room; other parked heights are left alone |
| `LedgerRecords.ReArmRecords` | BRCFScanLedger.c:801-848 | Re-arming a height is refused if and only if it is below the floor, not parked, or the list is full; it leaves the parked list for a fresh cycle: no target, no attempt, no race, one cycle more (at most 255), the latch set; every other entry stays |
| `LedgerRecords.ReArmRunRecords` | BRCFScanLedger.c:745-790 | A run starts a fresh cycle at one height after another, in place for a hole that has had its five offers, until the budget is spent or a height is below the floor, may still be offered, or is not parked or without room; every other entry stays |
| `LedgerRecords.DropRecords` | BRCFScanLedger.c:456-469 | The calls that drop entries keep exactly the others, as they were: an evaluation all but its height, the abandoning calls what is at or above the new floor, a rewind what is below its height |
| `LedgerRecords.RetireFloorCounts` | BRCFScanLedger.c:876-889 | A retirement of the floor counts exactly the heights it frees, and frees some if and only if the new floor is below the old one and not below the start |
| `LedgerRecords.LowestNeededIs` | BRCFScanLedger.c:865-870 | The lowest height still needed is the least one above the mark and not below the floor, and every height from the start to it is settled |
| `LedgerBlob.ParseInvertsSerialize` | BRCFScanLedger.c:1242-1338 | Parsing what was written, whatever follows it, restores every persisted field and resets the transient ones |
| `LedgerBlob.ReserializeIsIdentical` | BRCFScanLedger.c:1213-1240 | Serialize, parse, serialize: the second blob is the first |
| `LedgerBlob.RefusedIsEmpty` | BRCFScanLedger.c:1242-1338 | A refused parse leaves the empty ledger if and only if it is refused before any mark is read, or the marks read are zero and so is the outstanding count, if it got that far |
| `LedgerBlob.RefusedCanLeaveMarks` | BRCFScanLedger.c:1242-1338 | A 24-byte version 1 blob that is refused and leaves its start height behind |
| `LedgerRecords.RestartRecords` | BRCFScanLedger.c:1242-1338 | Of an outstanding hole a restart keeps the race flag and the re-arm count, sets the latch and clears the rest; the parked list and the marks survive |
| `LedgerLayout.LayoutIs` | BRCFScanLedger.c:1213-1240 | Place by place the bytes of every ledger: mark and version, the four marks, the outstanding count, each height with its race flag and re-arm count, the parked count, each height with its re-arm count and latch, numbers lowest byte first |
| `LedgerLayout.LoadedMarks` | BRCFScanLedger.c:1242-1338 | From every blob of any version that loads, the marks and counts are those at these places; version 1 has no floor |
| `LedgerLayout.LoadedOutstanding` | BRCFScanLedger.c:1242-1338 | Each outstanding height is the one at its place; versions 1 and 2 hold its race flag and no re-arm count |
| `LedgerLayout.LoadedParked` | BRCFScanLedger.c:1242-1338 | Each parked height is the one at its place; versions 1 and 2 hold no evidence of it |
| `ScanLedger.Ledger.Advance` | BRCFScanLedger.c:53-66 | Moves the mark to the specified place, over the arrays |
| `ScanLedger.Ledger.InsertOutstanding` | BRCFScanLedger.c:383-420 | In place: inserts a height in order, refreshes the target of one already there, or drops the lowest of a full list and reports it |
| `ScanLedger.Ledger.AddGaveUp` | BRCFScanLedger.c:111-131 | Parks a height in the three parallel arrays at once, joining the evidence of one already parked; false only when full |
| `ScanLedger.Ledger.RecordRequestedDropped` | BRCFScanLedger.c:425-446 | The new ledger is the specified one, and the count and span reported are those of the heights evicted |
| `ScanLedger.Ledger.MarkEvaluated` | BRCFScanLedger.c:456-467 | The height leaves both lists and the mark advances, as specified |
| `ScanLedger.Ledger.MarkHeaderRace` | BRCFScanLedger.c:471-488 | Flags or inserts the height as specified, without an advance |
| `ScanLedger.Ledger.ReArmPeer` | BRCFScanLedger.c:492-507 | Every hole offered by the lost peer loses its target and its latch, and no other changes, as specified |
| `ScanLedger.Ledger.RerequestDelay` | BRCFScanLedger.c:514-525 | The doubling loop computes min(30 * 2^attempts, 120), apart from the header-race first try |
| `ScanLedger.Ledger.RetireCapped` | BRCFScanLedger.c:557-567 | One in-place pass parks every capped entry there is room for, as specified |
| `ScanLedger.Ledger.NextRerequest` | BRCFScanLedger.c:569-589 | Offers the lowest due hole of the retired list, counts the attempt, notes the time, and changes nothing else, as specified |
| `ScanLedger.Ledger.PeekRerequestRange` | BRCFScanLedger.c:597-626 | Names the one run that may be offered; finds none only when no hole at or above the floor is offerable |
| `ScanLedger.Ledger.CommitRerequest` | BRCFScanLedger.c:628-640 | Marks exactly the entries of the range as offered to the peer at that time, as specified |
| `ScanLedger.Ledger.PinningHole` | BRCFScanLedger.c:672-698 | Finds the lowest hole of both lists with its evidence, the outstanding record winning a tie |
| `ScanLedger.Ledger.AbandonableRunFrom` | BRCFScanLedger.c:700-743 | One merge walk returns the longest run, up to the limit, of parked heights that each meet the threshold |
| `ScanLedger.Ledger.ReArmGaveUp` | BRCFScanLedger.c:801-848 | Moves a parked height back with its next cycle, or leaves the ledger as it was |
| `ScanLedger.Ledger.ReArmParkedRun` | BRCFScanLedger.c:745-790 | Re-arms height after height until one is refused, as specified, and counts them |
| `ScanLedger.Ledger.RetireAbandonedTo` | BRCFScanLedger.c:876-889 | Lowers the floor as specified and counts the heights freed |
| `ScanLedger.Ledger.AbandonGaveUpBelow` | BRCFScanLedger.c:891-952 | Drops the parked prefix below the clamp and the first outstanding hole, raises the floor, and reports count, span and next needed height |
| `ScanLedger.Ledger.AbandonUnscannableBelow` | BRCFScanLedger.c:954-1000 | Drops every hole below the floor given, raises the floor, and counts only what is newly surfaced |
| `ScanLedger.Ledger.RewindTo` | BRCFScanLedger.c:1002-1020 | Cuts marks and lists at a height, lets the mark catch up, and says whether a field was cut |
| `ScanLedger.Ledger.Serialize` | BRCFScanLedger.c:1213-1240 | Writes exactly the version 3 bytes when the buffer has room, leaves it untouched otherwise, and always says how many are needed |
| `ScanLedger.Ledger.Parse` | BRCFScanLedger.c:1242-1338 | For every byte string, loads what the reading specification says, a refusal leaving the fields read so far |
| `RestorePreflight.FrontierIsParse` | BRCFRestorePreflight.h:97-132 | For every byte string the reader accepts exactly when the parser does and the marks are consistent, and reports the marks the parser would load |
| `RestorePreflight.ReachableBlobPasses` | BRCFRestorePreflight.h:97-132 | The blob of every ledger a lawful run can reach passes the reader with that ledger's marks |
| `RestorePreflight.SavedBlocksFloor` | BRCFRestorePreflight.h:138-163 | Accepts exactly the whole, counted windows and returns their lowest block height |
| `RestorePreflight.EntryPlaces` | BRCFRestorePreflight.h:138-163 | An entry is its header's length, its height and the header, and is whole if and only if the length is at most 2^31 - 1 and the bytes are there |
| `RestorePreflight.WindowReads` | BRCFRestorePreflight.h:138-163 | Written saved blocks read back as their heights, whatever bytes stand before and after |
| `RestorePreflight.Preflight` | BRCFRestorePreflight.h:169-193 | Each of the six answers if and only if its condition on the stored copies holds |
| `RestorePreflight.ResumeSkipsNothing` | BRCFRestorePreflight.h:169-193 | With a reachable ledger's bytes and a window that reaches it, every height from the ledger's start to below the window is evaluated, evicted or once abandoned |
| `Abandonment.VerdictIsSound` | BRCFAbandonment.h:194-201 | A recovery verdict read off a ledger after any lawful run is true: nothing was ever abandoned and every height of the band, from its known bottom or the ledger's start, was evaluated or evicted |
| `Abandonment.VerdictIsTrue` | BRCFAbandonment.h:25-76 | When everything the run's calls add fits, a verdict means that every height of the band was evaluated and none was evicted or abandoned |
| `Abandonment.VerdictHoldsIff` | BRCFAbandonment.h:25-76 | After any lawful run a verdict means that every height of the band was evaluated if and only if each height of the band that some call pushed out, and no later rewind cut, was also reported evaluated by a call no later rewind voids |
| `Abandonment.VerdictIsGiven` | BRCFAbandonment.h:194-201 | The verdict is not withheld: a sound ledger with no floor and nothing parked gives it, once its mark has caught up, for every band from its start or above that it requested and of which it holds no hole |
| `LedgerWitnesses.VerdictCanRestOnEviction` | BRCFAbandonment.h:170-190 | The evicted arm is real: a lawful run with the verdict on a height that only fell out of a full list |
| `Abandonment.StartTestIsNeeded` | BRCFAbandonment.h:170-190 | For every band there is a fresh ledger above it that meets every other test while the band's top was never looked at |
| `AbandonmentRecord.RecordKeeper.Note` | BRCFAbandonmentRecord.h:65-75 | Records or extends the band as specified and says exactly whether it changed |
| `AbandonmentRecord.RecordKeeper.NoteScanCoverage` | BRCFAbandonmentRecord.h:88-104 | Recovers if and only if the band is retired, the frontier is past its top and was seen inside it before |
| `AbandonmentRecord.RecordKeeper.Poll` | BRCFAbandonmentRecord.h:117-138 | The new record and hint are the specified ones and each bit of the answer says exactly what happened |
| `AbandonmentRecord.BandOnlyGrows` | BRCFAbandonmentRecord.h:65-77 | Over any run between clears the band's bottom never changes and its top never falls |
| `AbandonmentRecord.PollChangesBand` | BRCFAbandonmentRecord.h:117-138 | A poll changes the band if and only if there is a floor and no band, or the height below the floor is above the band's top; the new top is then the height below the floor |
| `AbandonmentRecord.PollRecordsFloor` | BRCFAbandonmentRecord.h:117-138 | Polling a ledger with a floor after any lawful run: the recorded top is the highest height below the floor, or the old top if that is higher, no height at or above the floor is new to the record, a new top was abandoned in the run, a new bottom is known if and only if the hint lies inside the band and is then the hint, and an old bottom stays |
| `AbandonmentRecord.WitnessIsReal` | BRCFAbandonmentRecord.h:83-105 | A stored in-band observation always stands for a real poll that saw the frontier inside the band as it still stands |
| `AbandonmentRecord.RecoveryNeedsEvidence` | BRCFAbandonmentRecord.h:88-140 | A poll recovers the band only with no floor, and by proof from the ledger or by a frontier past the top after a real observation inside the band as it has stood since |
| `AbandonmentRecord.RecoveryIsTrue` | BRCFAbandonmentRecord.h:117-138 | A poll that recovers the band, by either way, on scalars read off a ledger after any lawful run speaks the truth: nothing was ever abandoned and every height from the ledger's start to the band's top was evaluated or evicted |
| `AbandonmentRecord.RecoveryCoversBand` | BRCFAbandonmentRecord.h:117-138 | When the ledger starts at or below the band, the recovery speaks for every height of the band, and all were evaluated when everything the run's calls add fits |
| `LedgerWitnesses.RecoveryCanStartBelow` | BRCFAbandonmentRecord.h:83-105 | For every known band of two heights or more, a ledger born at its top: two polls, around one request and one evaluation, recover the band although its lowest height was never in the ledger's account |
| `Limbs256.MulU32` | BRMerkleBlock.c:619-629 | Eight limbs times a word, modulo 2^256 |
| `Limbs256.DivU32` | BRMerkleBlock.c:631-643 | Eight limbs divided by a word, rounded down |
| `Limbs256.Cmp` | BRMerkleBlock.c:645-653 | The sign of the answer is the order of the two numbers |
| `Limbs256.ShiftLeft` | BRMerkleBlock.c:593-604 | Times 2^bits modulo 2^256, for every number of bits |
| `Limbs256.ShiftRight` | BRMerkleBlock.c:606-617 | Divided by 2^bits rounded down, for every number of bits |
| `Limbs256.Bits` | BRMerkleBlock.c:655-666 | The number of bits of the value |
| `CompactTarget.SetCompact` | BRMerkleBlock.c:668-686 | Expands a compact word modulo 2^256 and flags exactly the negative and the too large ones |
| `CompactTarget.GetCompact` | BRMerkleBlock.c:688-709 | The compact form of the value with its sign, for every 256-bit number |
| `CompactTarget.CompactRoundsDown` | BRMerkleBlock.c:688-709 | Decoding an encoded number gives it rounded down to its grain, at most one part in 2^15 less |
| `CompactTarget.DecodedIsExact` | BRMerkleBlock.c:668-709 | A decoded number's compact form decodes to it |
| `CompactTarget.CompactMonotone` | BRMerkleBlock.c:688-709 | The compact form and what it decodes to keep the order of numbers |
| `DifficultyV4.MedianTimePast` | BRMerkleBlock.c:744-757 | The sort loop returns the middle of the eleven sorted times |
| `DifficultyV4.NetworksAreRoomy` | BRChainParams.h:900-927 | The parameters of both networks leave room: no product of the rule reaches 2^256 |
| `DifficultyV4.LimbTargetExact` | BRMerkleBlock.c:760-809 | With room and a previous target at most the limit, the wrapping, early-stopping limb rule equals the rule in unbounded integers |
| `DifficultyV4.TargetMonotone` | BRMerkleBlock.c:760-809 | A longer window, an easier previous target or a longer wait never makes the next target harder, exactly and in compact form |
| `DifficultyV4.TimespanIsGradual` | BRMerkleBlock.c:770-778 | The timespan, without its formula: inside the clamp it differs from the averaging one by the window's difference over four, toward zero and with its sign; it is the upper bound if and only if the window is at least avg + 4 * (max - avg), and the lower one likewise |
| `DifficultyV4.MainNetClamps` | BRMerkleBlock.c:770-778 | On the main network the timespan is 870 if and only if the window is 1230 s or more, and 690 if and only if it is 510 s or less |
| `DifficultyV4.SteadyTarget` | BRMerkleBlock.c:760-809 | A window within 4 s of the averaging length leaves the target of an algorithm in its turn as it was, 104 to 100 easier a block late and harder a block early, up to the limit |
| `DifficultyV4.EachBlockIsAStep` | BRMerkleBlock.c:787-805 | For every distance: none for an algorithm in its turn, and each block more is one step easier than the block before, each block less one step harder, with the rounding of every step |
| `WorkedExamples.FirstTarget` | BRMerkleBlock.c:668-709 | The word 0x1d00ffff stands for 0xffff * 2^208, and is that number's compact form |
| `WorkedExamples.DampedTarget` | BRMerkleBlock.c:760-809 | From that word, a main network window of 800 s in the algorithm's turn gives 0x1d010417 |
| `DifficultyV4.Target` | BRMerkleBlock.c:760-809 | For every input the result is the compact form of the limb rule and never decodes above the limit; with room it is the compact form of the exact rule, over the timespan that the gradual rule describes without the damping's formula |
| `MerkleTree.RootFromTxHashes` | BRMerkleBlock.c:291-322 | The in-place reduction returns the recursive duplicate-last-node root, and fails exactly for an empty list or one with an equal aligned pair in some row before duplication |
| `MerkleTree.RootPinsList` | BRMerkleBlock.c:278-290 | With a node hash injective on pairs, two accepted lists of the same tree depth with the same root are identical |
| `MerkleTree.DoubledTailKeepsRoot` | BRMerkleBlock.c:284-287 | The pair test is needed: doubling the last of three nodes by hand keeps the root, and is refused |
| `MerkleTree.CeilLog2` | BRMerkleBlock.c:44-50 | For every 32-bit count the bit trick and shift loop give the tree's depth, at most 32 |
| `PartialMerkle.RootRNode` | BRMerkleBlock.c:327-350 | Walking a node's branch anywhere in a block returns the node's hash and leaves the cursors just past the branch |
| `PartialMerkle.TxNode` | BRMerkleBlock.c:225-249 | Walking a node's branch adds exactly the matched transactions below it, in order, while there is room, and leaves the cursors just past the branch |
| `PartialMerkle.InnerSplit` | BRMerkleBlock.c:66-70 | An inner node's branch is its bit and its children's branches, and a missing right child is met only after all hashes are consumed |
| `PartialMerkle.DecodesBranch` | BRMerkleBlock.c:225-350 | For any accepted list with no zero hash and any match vector, the encoded branch decodes to the list's root with every hash and bit used, and to exactly the matched transactions in order |
| `MerkleNames.RootNamesTransactions` | BRMerkleBlock.c:243-350 | Over a count of transactions with an even number of nodes in every row strictly between them and the root, any block that stores no zero hash and whose walk gives the root of an accepted list of that count names only transactions of the list, in their order, each place at most once (node hash injective on pairs and never zero) |
| `MerkleNames.OddRowNamesAnything` | BRMerkleBlock.c:326-350 | Over any other count the claim fails: for every accepted list and every hash but zero some block that stores no zero hash has the list's root and names the hash |
| `MerkleNames.RootDecidesIff` | BRMerkleBlock.c:326-350 | So the root decides what a block can name if and only if those rows are even, a test on the count alone |
| `MerkleNames.EvenRowsMeans` | BRMerkleBlock.c:48-61 | Those rows are even if and only if the pairs of transactions, the last one counted alone, number a power of two |
| `MerkleNames.InsideWalkNamesTransactions` | BRMerkleBlock.c:326-350 | For every count and every list, a block with the right root whose walk ends inside its hashes names only transactions of the list, in their order: the end of the walk is a test the code could make |
| `MerkleNames.MissingPairIsNamed` | BRMerkleBlock.c:334-346 | The first count that fails, five: a missing inner node flagged over two equal leaves is taken for missing and its leaves are named, while the root is right and the walk ends at SIZE_MAX |
| `MerkleNames.StoredZeroIsNamed` | BRMerkleBlock.c:326-350 | That no zero hash is stored is needed: a stored zero hash stands for a missing last leaf, keeps the root, and is named when flagged |
| `PartialMerkle.PackHolds` | BRMerkleBlock.c:225-260 | Eight flags to a byte, lowest first: every flag reads back |
| `FilterHeaders.RunIsFold` | BRCompactFilterChain.c:22-25 | After any run of appends, cuts and drops, the header at every height the chain answers for is the fold of the filter hashes from the chain's first height up to it |
| `FilterHeaders.NewChainIsFold` | BRCompactFilterChain.c:63-154 | The same for a chain made at any start height and anchor: every header it answers for is the fold from that anchor |
| `FilterHeaders.AppendVerifies` | BRCompactFilterChain.c:239-260 | After an accepted append, bytes verify at the height of each appended hash when they digest to it; with a header hash injective in its first argument, only then; and verdicts below are unchanged |
| `FilterHeaders.RunVerifies` | BRCompactFilterChain.c:239-260 | The same over runs: after any run of appends, cuts and drops from a new chain, bytes verify at a height the chain answers for when, and under that injectivity only when, they digest to the hash appended there |
| `FilterHeaders.DropKeeps` | BRCompactFilterChain.c:172-187 | Dropping keeps the tip, the next height, every header from the new anchor up and every verdict above it, and forgets the rest |
| `FilterHeaders.CutAndReappend` | BRCompactFilterChain.c:122-170 | Cutting inside an extension leaves the shorter extension, and appending the rest of the same hashes restores the chain |
| `FilterHeaders.CheckForeseesAppend` | BRCompactFilterChain.c:199-221 | For every batch, the check reports a height and header only if the append would store that header there, and reports exactly when the append would break a checkpoint, if and only if no header whose height wraps clashes with a checkpoint or the append is refused anyway |
| `FilterHeaders.ClearOfWraps` | BRCompactFilterChain.c:199-221 | Heights alone decide when no checkpoint stands where a header of the batch wraps to: then the check foresees the append |
| `FilterHeaders.CallerForesees` | BRCompactFilterChain.c:222-239 | With only the checkpoints the caller hands over, the check foresees the append as long as the chain itself has not passed height 2^32: the range of a batch that crosses it is empty |
| `FilterHeaders.WrappedReport` | BRCompactFilterChain.c:199-221 | The exception is real: a chain holding a header at height 2^32 - 1, a batch of one and a checkpoint in the caller's range are reported at height 0, where the append stores nothing and breaks no checkpoint |
| `FilterHeaders.DeserializeSerialize` | BRCompactFilterChain.c:290-326 | Reading back a chain's bytes, whatever follows them, gives the chain |
| `FilterHeaders.SerializeDeserialize` | BRCompactFilterChain.c:262-288 | Accepted bytes start with exactly the bytes of the chain read from them |
| `FilterHeaders.LayoutIs` | BRCompactFilterChain.c:262-288 | Place by place the bytes of every chain: mark, version, filter type, start, anchor, count, and each header |
| `FilterChain.Chain.Reserve` | BRCompactFilterChain.c:41-61 | Doubling makes room for every count up to the cap, refuses only past it, and keeps the contents |
| `FilterChain.Chain.AppendEx` | BRCompactFilterChain.c:122-153 | Refuses a wrong previous header or an overfull chain, else extends the chain by the fold |
| `FilterChain.Chain.Truncate` | BRCompactFilterChain.c:162-170 | Cuts at a height inside the window and refuses any other |
| `FilterChain.Chain.DropBelow` | BRCompactFilterChain.c:172-187 | Shifts the headers down in place and moves the anchor, or refuses |
| `FilterChain.Chain.Header` | BRCompactFilterChain.c:110-120 | The header held at a height, the anchor just below the window, zero elsewhere |
| `FilterChain.Chain.VerifyFilter` | BRCompactFilterChain.c:239-260 | True exactly when the bytes hash, on top of the header below, to the header held |
| `FilterChain.Chain.BatchViolates` | BRCompactFilterChain.c:199-221 | The folding loop, without storing, reports the first header that contradicts a checkpoint, or none when none does |
| `FilterChain.Chain.Serialize` | BRCompactFilterChain.c:262-288 | Writes exactly the chain's bytes when they fit and leaves the rest of the buffer alone |
| `FilterChain.Chain.Deserialize` | BRCompactFilterChain.c:290-326 | Accepts exactly the readable bytes and builds the chain they describe |
| `GcsFilter.FastRange64` | BRGCSFilter.c:100-115 | Half-word products give (hash * f) / 2^64 with no overflow, and less than f |
| `GcsFilter.BitReader.Read` | BRGCSFilter.c:159-171 | The next bits as a number, highest first, or none exactly when fewer are left |
| `GcsFilter.BitReader.Decode` | BRGCSFilter.c:182-198 | One Golomb-Rice number, or none exactly when the stream ends first; no shifted sum overflows |
| `GcsFilter.DecodeValues` | BRGCSFilter.c:276-290 | The decoding loop returns exactly the running sums, or refuses exactly when the stream ends or a sum reaches F |
| `GcsFilter.ParsedAscends` | BRGCSFilter.c:216-306 | A parsed filter has as many values as it says, never decreasing and all below F = N * M |
| `GcsFilter.ParseEncoded` | BRGCSFilter.c:216-306 | Parsing the encoding of an ascending list below N * M gives back the list |
| `GcsCoding.ValuesRead` | BRGCSFilter.c:182-200 | Decoding the Golomb-Rice coding of an ascending list gives the list and uses exactly its bits |
| `GcsFilter.SortedContains` | BRGCSFilter.c:334-344 | Binary search answers membership |
| `GcsFilter.Match` | BRGCSFilter.c:346-353 | True exactly when the element's place is among the values |
| `GcsFilter.MatchAny` | BRGCSFilter.c:362-401 | The sort and merge walk answers whether some element matches |
| `GcsFilter.NoElementIsLost` | BRGCSFilter.c:326-354 | The filter of some elements, encoded and parsed back, matches every one of them |
| `WorkedExamples.CompactSizes` | BRGCSFilter.c:216-306 | The lengths a count can have, and its bytes lowest first |
| `WorkedExamples.FirstFilter` | BRGCSFilter.c:216-306 | The basic filter 019dfca8 that BIP 158 gives for the test network's first block parses to its one value, 769941 |
| `Base58.DecodeEncode` | BRBase58.c:37-159 | Every byte string whose encoding has at most 128 characters decodes back to itself |
| `Base58.EncodeDecode` | BRBase58.c:37-159 | Every alphabet string of at most 128 characters is the encoding of the bytes it decodes to, leading zeros included |
| `Base58.RefusedDecodes` | BRBase58.c:76-159 | A decode is empty only for the empty string, for one of more than 128 characters and for one with a character outside the alphabet |
| `Base58.EncodeFits` | BRBase58.c:45 | 256^m <= 58^(138m/100 + 1) for every m: the encoder's buffer never drops a carry |
| `Base58.DecodeFits` | BRBase58.c:91 | 58^128 < 256^94: nor does the decoder's |
| `Radix.MulAdd` | BRBase58.c:48-58 | The carry loop multiplies a digit buffer and adds a digit, exactly, when the result has room |
| `Base58.Encode` | BRBase58.c:37-73 | Writes the terminated encoding when it fits and nothing otherwise |
| `Base58.Decode` | BRBase58.c:76-159 | Writes the decoded bytes when they fit and nothing otherwise, refusing a bad character or too long a string |
| `WorkedExamples.Base58Characters` | BRBase58.c:39 | Each digit is written as its character of the Base58 alphabet |
| `AmountParse.ParseDGB` | BRAmountParse.h:54-159 | Accepts a text only with the one satoshi count in [0, 2^63) it names exactly, and refuses only a text that names none |
| `AmountText.ReadsTheGrammar` | BRAmountParse.h:63-123 | Reading is unambiguous: the trimmed, separated text spells at most one numeral, and that one is read |
| `AmountParse.HopelessMeansNone` | BRAmountParse.h:89-105 | A text past the 24-digit buffer or the exponent limit names no amount |
| `AmountFormat.FormatReads` | BRAmountParse.h:161-187 | Every non-negative 64-bit count, written out, names itself and nothing else |
| `AmountFormat.Format` | BRAmountParse.h:163-187 | Writes exactly the shortest decimal text and a terminator when they fit, and answers its length or zero |
| `WorkedExamples.CoinAndAHalf` | BRAmountParse.h:163-187 | 150000000 satoshis are written 1.5 |
| `Bech32Code.PolymodLinear` | BRBech32.c:37-39 | The checksum step is linear over exclusive or |
| `Bech32Code.ChecksumCloses` | BRBech32.c:137-139 | Absorbing the six characters computed for any prefix brings the checksum to the constant |
| `Bech32Field.AbsorbIsField` | BRBech32.c:37-39 | For every checksum and value, absorbing the value multiplies the checksum's polynomial over GF(32) by x, modulo BIP 173's generator x^6 + {29}x^5 + {22}x^4 + {20}x^3 + {21}x^2 + {29}x + {18}, and adds the value |
| `Bech32Groups.Regroups` | BRBech32.c:128-135 | Regrouping bytes into fives and back gives every byte |
| `Bech32Groups.BytesHold` | BRBech32.c:80-83 | Each group of five lies at its place in the bytes made from the groups |
| `Bech32.DecodeEncode` | BRBech32.c:42-144 | Decoding the address of a witness program of at most 90 characters gives back the prefix, the version opcode and the program |
| `Bech32Vectors.Bip173Address` | BRBech32.c:42-144 | The version 0 example of BIP 173, bc1qw508d6qejxtdg4y5r3zarvary0c5xw7kv8f3t4, is what its program encodes to, and decodes to it |
| `Bech32Vectors.Bip350Address` | BRBech32.c:42-144 | The version 16 example of BIP 350, bc1sw50qgdz25j, is what its program encodes to, and decodes to it |
| `Bech32Reencode.ClosesOnly` | BRBech32.c:88-92 | The checksum that closes a prefix on a constant is the only one |
| `Bech32Reencode.RegroupsBack` | BRBech32.c:78-86 | Regrouping fives into bytes and back gives the fives if and only if none is left over and the left-over bits are zero |
| `Bech32Reencode.Reencodes` | BRBech32.c:42-144 | What the decoder accepts can be encoded, and the encoding is the accepted address in lower case if and only if it has no group too many and its left-over bits are zero |
| `Bech32Encoder.Encode` | BRBech32.c:101-144 | The cursor loops produce exactly the specified address, and refuse exactly what cannot be encoded |
| `Bech32Decoder.Decode` | BRBech32.c:42-97 | For every text the cursor and bit-filling loops produce exactly the specified answer |
| `AesTables.SubInverts` | BRBIP38Key.c:50-86 | The inverse substitution table undoes the table on every byte |
| `AesBox.SubIsAffine` | BRBIP38Key.c:50-67 | For every byte v, bit by bit, the box is the affine map of section 5.1.1 of FIPS 197 of a w with v times w equal to 1 in the field, or of zero for zero |
| `AesStandard.ScheduleIsStandard` | BRBIP38Key.c:113-118 | For every key the windows hold, byte by byte, the words of the key expansion of section 5.2 of FIPS 197 |
| `AesStandard.EncryptIsStandard` | BRBIP38Key.c:90-126 | For every key and block, the encryption is byte by byte the state that the cipher of section 5.1 of FIPS 197 ends with |
| `AesField.MixForm` | BRBIP38Key.c:88-111 | The column-sum form the rounds use is the matrix form of section 5.1.3 of FIPS 197 |
| `AesField.UnmixMix` | BRBIP38Key.c:147-151 | The inverse column matrix undoes the column matrix |
| `AesCipher.UnexpandExpand` | BRBIP38Key.c:137-165 | Stepping the key window back gives the window it was expanded from |
| `AesCipher.BackMeets` | BRBIP38Key.c:128-173 | Before each of its rounds decryption holds what the matching encryption round held, under the same round key |
| `AesCipher.DecryptEncrypt` | BRBIP38Key.c:90-173 | Block decryption undoes block encryption for every key and block |
| `AesBlock.ExpandKey` | BRBIP38Key.c:113-118 | The in-place word loop is one step of the key expansion |
| `AesBlock.StepBack` | BRBIP38Key.c:159-165 | The in-place word loop steps the key window and the round constant back |
| `AesBlock.Encrypt` | BRBIP38Key.c:90-126 | The in-place rounds compute the specified encryption of the block |
| `AesBlock.Decrypt` | BRBIP38Key.c:128-173 | The in-place rounds, un-expanding the key as they go, compute the specified decryption of the block |

## Left out

- The ledger's filter-byte buffer, pending-confirm table, `HoleRanges`, `LowestGaveUp` and the one-line getters: memory bookkeeping and easier members.
- ScanLedger.Ledger.ReArmGaveUp: does not model the re-park when the inserted height is not found again, because `ScanLedger.InsertedIsFound` shows it always is.
- ScanLedger.Ledger.RecordRequestedDropped: reports no span for a refused range, where the code leaves the caller's two variables untouched.
- ScanLedger.Ledger.Parse: does not model an allocation failure or the two re-initialised buffers left out above.
- LedgerHistory.NoSilentLoss: assumes the contiguous requests the peer manager promises, because without them a skipped height is never a hole; the peer manager itself is not part of this model.
- NULL arguments, allocation failures, the NOMEM answers and the length queries with a NULL buffer: they change nothing a property here speaks of.
- The width of C counts (`size_t`, `int`): lengths are unbounded, and the widths that matter (heights, counters, limbs, 64-bit sums) are modelled.
- The comparison arms (`*_UNFIXED`, `*_RED`): they never ship.
- `BRCFRestoreArmHeight`, `BRCFAbandonmentIsUnrecovered` and the policy headers: a reading settles them.
- DifficultyV4.Target: requires that 100 plus the adjustment fits 32 bits, because the code adds them in 32 bits; both networks' parameters do.
- DifficultyV4.Target: takes the two windows of eleven times; the gathering of ancestors around it is not part of this model.
- Limbs256.Cmp: the conversions between limbs and stored hashes around it are byte copies and are left out.
- Proof-of-work hashing, `BRMerkleBlockParse` and `BRMerkleBlockIsValid`: parsing and policy around the walkers.
- MerkleNames.RootNamesTransactions: asks of the block that it stores no zero hash, which the code does not test (`MerkleNames.StoredZeroIsNamed` shows why); for the other counts `MerkleNames.InsideWalkNamesTransactions` holds.
- PartialMerkle.DecodesBranch: the walkers are recursive functions that return their cursors, where the code advances them by reference.
- The checkpoint table and its lookup, with its sixteen-entry buffer: the checkpoints are a parameter.
- SipHash and the double SHA-256 of filters and headers: parameters.
- GcsFilter.MatchAny: the library sort is a sorting function, not the C library's.
- Base58Check and the BIP 38 wrapping around AES (scrypt, address hash): they only compose what is here with the parameters above.
- AmountParse.ParseDGB: counts digits and exponent without bound, where the code counts exponent digits in an `int`.
- AmountFormat.Format: on a refusal for want of room the buffer may hold the whole part, as in the code; what it holds is not stated.
- Bech32Encoder.Encode: requires the program to be there and the address to fit 90 characters, because the code's buffer holds 91 characters and it asserts the length last; past that the code has no defined result to model.
- AesBlock.Encrypt: works on bytes, where the code adds round keys in 32-bit words; the words are the bytes in memory order.
- AesBlock.Decrypt: erasing key material after use (`mem_clean`) is not modelled.
