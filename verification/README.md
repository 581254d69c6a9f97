# conkit: a verified model

This project models the decision-making core of conkit, a contract kit for source signatures and
code sketches, and proves what that core promises. It covers five components.

- **Signature inventory** (`Digest`, `Inventory`, `MergeLaws`, `InventoryDigests`, `Diff`,
  `DiffIdentity`, `ContractMeaning`, `DiffLaws`, `Relabelling`, `DiffMeaning`, `Compare`). Entries are partitioned into groups,
  digested through length-framed messages, merged, compared with a source, and diffed. The digest,
  the diff and the classification of changes are computed by different code; the proofs tie them
  together: the diff is empty exactly when the contract digests agree, it mirrors, it is a shortest
  edit script, and a pure relabelling is reported as label changes and nothing else.
- **Admission and cancellation** (`WorkPool`, `Race`). The background work pool and the command
  race are labelled steps; every claim is about every interleaving of any number of operations or
  signal handlers. One pool model serves both crates.
- **Exact-line normalisation and matching** (`Normalize`, `Lines`, `Matching`, `SketchReport`,
  `SketchCheck`, `SketchMeaning`, `GroupedCheck`). The one-pass scanner refines a two-phase form, matching is
  characterised without reference to its loops, and the grouped check refines a direct loop over
  the sketches, down to the one error a refused check returns.
- **Resource ledgers** (`OutputHistory`, `ScratchHistory`, `Ledgers`, `Evidence`). Returned outputs
  charged to one total, scratch reservations shared by many live writers, and JSON byte accounting
  that never builds the JSON. Each meter carries its whole history, and the laws are about every
  history.
- **Bounded reads** (`CatalogRead`). Read and compare loops over a reader that may return as
  little as it likes.

`Wrappers`, `Orders` and `Unions` hold the shared vocabulary: saturating counters, stable sorting
and ordered enumeration, and partial unions of maps.

## Conventions

- Specification functions compute as the code does. What they mean is a theorem beside them, told on
  the fields, lines or bytes a caller sees and not through the functions: `ContractIdentity`,
  `EveryEntryMeans`, `Explains`, `KeptPollingIsAnswered`, `VerdictMeans`, `ReceivedMeans`.
- Code that updates state is a class or a method with loops, proved against a specification
  function; what the source promises is then proved about that function. Protocols are state
  machines with an inductive invariant and a rank.
- SHA-256 is a parameter of type `seq<Byte> -> SignatureDigest`. It is never assumed injective.
  Where a statement needs it, `NoCollision` says that no two of the finitely many messages hashed
  for the inventories at hand collide; that the messages determine their fields is proved.
- `u64` counters saturate explicitly (`SatAdd`). A `Slice` is no longer than `isize::MAX`, so sums
  of two lengths cannot saturate; where a limit of `u64::MAX` changes the outcome the contracts
  say so.
- The protocols assume sequential consistency, and one race in flight (`conkit/app.rs:73-77`).
  Job bodies and inner futures end with an arbitrary outcome.

## Promises that need a condition

- *A finished request has woken a suspended race.* With two signal handlers this fails: the second
  can find the slot empty and finish while the first is between taking the waker and invoking it
  (`Race.SecondRequestCanFinishFirst`). Exactly: the race is awake if and only if no request still
  carries a waker (`Race.WokenUnlessHandedOver`); when everything has come to rest it is awake
  (`Race.QuietMeansAwake`), and so it is after any finished request if requests come one after the
  other, as from the process's one handler thread (`Race.SerialRequestsWake`).
- *Whoever holds an active permit also holds admission.* True in the signature crate. A skipped
  sketch closure returns without naming its permits, and Rust drops captured variables in an
  unspecified order, so it may give admission back first. Every sketch pool with an operation has
  such a run, so the pools that keep the promise are exactly the signature crate's and those
  without operations (`WorkPool.ActiveMeansAdmittedExactly`).
- *The `record` inside a fresh-buffer commit never reports a limit.* `record` moves the total before
  checking it, so a failed direct `record` leaves the meter over its limit and even an empty fresh
  buffer is then refused (`Ledgers.OverdrawnMeterRefusesEmptyOutput`). Exactly: it reports a limit
  if and only if the total was over the limit before the commit. Both direct callers of `record`
  leave with `?` when it fails (`conkit-signature/languages/rust/parser/yaml/sketch.rs:178`,
  `conkit-signature/languages/rust/parser/yaml/render/output.rs:1731`), so the history needs a
  caller that goes on after a failed record.
- *Returned output stays within its limit.* Under any limit below `u64::MAX` it always does, also
  after a failed direct `record`. At `u64::MAX` the total saturates and nothing is refused
  (`Ledgers.SaturatedMeterReturnsPastLimit`); exactly, the promise then holds while everything
  charged fits a `u64` (`OutputHistory.ReturnedWithinLimit`). The total is the sum of the returned
  lengths exactly when everything charged fits the limit.
- *Retained scratch is the sum of the live reservations.* Exactly as long as the live reservations
  add up to no more than `u64::MAX` bytes (`ScratchHistory.BalancesExactly`). A limit below
  `u64::MAX` enforces that (`ScratchHistory.LimitKeepsMemory`), and the buffers of one process, being
  disjoint parts of one address space, meet it under every limit.
- *A completed read carries the whole content*, and *the metadata check admits what the read admits.*
  Under a total limit of `u64::MAX` the running total saturates instead of crossing it, and a read
  that starts too close to it stops early (`CatalogRead.SaturatedTotalTruncates`,
  `CatalogRead.PreflightRefusesWhatIsRead`); `CatalogRead.CompleteIsWhole` and
  `CatalogRead.PreflightAgrees` give the exact conditions.
- *CRLF and LF texts of the same lines normalise alike.* Exactly when no terminated line ends in CR
  (`Lines.LineEndingsDoNotMatter`, failing input `Lines.CarriageReturnMatters`).
- *A mismatch shows two different digests.* Up to hash collisions, exactly when the two groups differ
  in names and entry digests (`Compare.MismatchIsExact`). Swapping the digests of two entries of one
  semantic name in one group leaves nothing to show (`Compare.SwappedDigestsShowNothing`). The
  parsers never build such a group: every entry carries its group's document scope, which makes
  names unique in it, and every mismatch then shows (`Compare.ScopedMismatchShowsDifference`).
- *Equal digests mean an empty diff* holds up to collisions among the messages hashed for the two
  inventories (`DiffIdentity.DiffAgreesWithIdentity`).

## Model
| member | source | states |
|---|---|---|
| Digest.FrameAllInjective | conkit-signature/inventory.rs:95-103 | length framing loses nothing: equal hashed bytes come from equal field sequences |
| Digest.FramesRead | conkit-signature/inventory.rs:95-103 | reading a framed message, eight big-endian length bytes and then so many bytes, gives back exactly the fields written |
| Digest.EntryMessageReads | conkit-signature/inventory.rs:57-65 | an entry is hashed as two fields: the versioned entry domain and the canonical bytes |
| Digest.HexReads | conkit-signature/inventory.rs:67-75 | each digest byte is rendered by its two lowercase hexadecimal digits, high half first, at its own place |
| Digest.OptionalFieldsInjective | conkit-signature/inventory.rs:105-113 | the presence-tagged encoding of an optional field, with anything after it, determines the option and the rest |
| Digest.HexInjective | conkit-signature/inventory.rs:67-75 | the lowercase hexadecimal rendering determines the digest |
| Digest.HexBytes | conkit-signature/inventory.rs:67-75 | the in-place buffer fill yields the 64 hexadecimal characters of the digest, two per byte |
| Digest.DigestEncoder.WriteOptionalField | conkit-signature/inventory.rs:105-113 | exactly the tag, and the value when there is one, are absorbed as framed fields after everything before |
| Digest.DigestEncoder.Finish | conkit-signature/inventory.rs:115-119 | the digest is the hash of the framed concatenation of every field written, in order |
| Digest.DigestForEntry | conkit-signature/inventory.rs:61-65 | an entry digest is the hash of the framed entry domain and canonical bytes |
| InventoryDigests.SourceShapeDigest | conkit-signature/inventory.rs:189-212 | a group's shape digest is the hash of its named entry digests in canonical order, or names the first listed entry id that has no entry |
| InventoryDigests.GroupDigests | conkit-signature/inventory.rs:214-233 | a group's contract digest covers its shape digest and both optional context fields; a missing entry is the only error |
| InventoryDigests.InventoryContractDigest | conkit-signature/inventory.rs:345-365 | succeeds exactly when every listed entry exists, with the hash of the sorted labelled group contracts; otherwise it names the least missing entry of the least group that misses one |
| InventoryDigests.InventorySourceShape | conkit-signature/inventory.rs:325-343 | succeeds exactly when every listed entry exists, with the hash of the sorted group shape digests, labels left out; otherwise it names the least missing entry of the least group that misses one |
| InventoryDigests.InventoryMessageInjective | conkit-signature/inventory.rs:345-365 | the message hashed for an inventory determines its sorted labels and group contract digests |
| InventoryDigests.ShapeMessageInjective | conkit-signature/inventory.rs:204-211 | the message hashed for a group's content determines its sorted names and entry digests |
| InventoryDigests.GroupContractMessageInjective | conkit-signature/inventory.rs:219-233 | the message hashed for a group's contract determines its shape digest, extraction context and metadata |
| InventoryDigests.MessagesAreSeparated | conkit-signature/inventory.rs:55-65 | domain separation: no entry, shape, group-contract or inventory message is ever a message of another kind |
| InventoryDigests.MessagesRead | conkit-signature/inventory.rs:189-233 | the layout of the three messages as a reader of the framing sees them: domain, tag, then names and hexadecimal digests in turn, or the shape digest and the presence-tagged extraction context and metadata in that order |
| InventoryDigests.NamedLeqMeans | conkit-signature/inventory.rs:195-202 | named digests sort by name and then by digest, each byte string at its first difference |
| InventoryDigests.GroupLeqMeans | conkit-signature/inventory.rs:609-615 | groups sort by shape digest, contract digest, extraction context and metadata in turn, an absent one first |
| Inventory.IdLeqMeans | conkit-signature/inventory.rs:9-13 | ids order by their scoped text and then by their semantic text, at the first differing byte |
| ContractMeaning.ContractIdentity | conkit-signature/inventory.rs:189-365 | without a collision on the messages hashed for them two inventories have one contract digest if and only if they hold the same groups, as a multiset of label, entry names and digests, extraction context and metadata, read off their own fields |
| ContractMeaning.SourceShapeMeaning | conkit-signature/inventory.rs:325-343 | the label-free digests are equal if and only if the groups hold the same entries, as a multiset, whatever their labels and contexts |
| ContractMeaning.ShapesMessageReads | conkit-signature/inventory.rs:325-343 | the label-free message is the inventory domain, its tag, and one hexadecimal field a digest |
| Inventory.SignatureInventory.Insert | conkit-signature/inventory.rs:243-268 | updates both maps as the specification function says; an equal entry is a no-op, a conflicting one names which conflict and changes nothing |
| Inventory.SignatureInventory.SetGroupContext | conkit-signature/inventory.rs:270-285 | installs a context unless the group already carries a different one, which is an error that changes nothing |
| Inventory.SignatureInventory.Merge | conkit-signature/inventory.rs:287-305 | the object ends as the ordered fold of entries then contexts, stopped at the first conflict |
| Inventory.SignatureInventory.MergeAll | conkit-signature/inventory.rs:307-319 | returns a fresh inventory holding the left fold of all inputs, or the first error of that fold |
| MergeLaws.InsertedKeepsValid | conkit-signature/inventory.rs:243-268 | inserting any entry keeps entry ids partitioned by group |
| MergeLaws.WithGroupContextKeepsValid | conkit-signature/inventory.rs:270-285 | setting any context keeps entry ids partitioned by group |
| MergeLaws.MergedKeepsValid | conkit-signature/inventory.rs:287-305 | a merge keeps the partition whether it succeeds or fails part-way |
| MergeLaws.EveryHistoryIsValid | conkit-signature/inventory.rs:243-305 | after any sequence of insertions, context settings and merges, failed ones included, every entry is listed by exactly its own existing group and every listed entry exists, so missing-group and missing-entry errors are unreachable |
| Inventory.ScopedShareScope | conkit-signature/inventory.rs:32-41 | ids built for one document carry one scope, readable off each id: the document and a separator, or nothing |
| MergeLaws.ScopedHistoryAgrees | conkit-signature/languages/rust/parser/mod.rs:366-377 | an inventory built from entries inserted under groups of their own document, through any inserts, contexts and merges, keeps every entry in its group's document scope |
| MergeLaws.MergedMeaning | conkit-signature/inventory.rs:287-305 | a merge succeeds exactly when shared entries and shared contexts agree, and then holds exactly the union of both |
| MergeLaws.MergeErrorIsWitnessed | conkit-signature/inventory.rs:243-285 | the error of a failed merge names an id on which the two inputs really conflict, with the right groups |
| MergeLaws.RefusedMergeStopsFirst | conkit-signature/inventory.rs:287-305 | a refused merge stops at its first conflict in id order, entries before contexts: the error is that conflict's, with both groups where they differ, and exactly what came before it has been merged |
| MergeLaws.MergeAllStopsFirst | conkit-signature/inventory.rs:307-319 | a refused merge_all is refused by the first input that clashes with the union of those before it, and as that merge is |
| MergeLaws.MergeAllIsPartialUnion | conkit-signature/inventory.rs:307-319 | merge_all succeeds exactly when the inputs agree pairwise, holds exactly their entries and contexts, and always keeps the partition |
| MergeLaws.MergeAllIgnoresOrder | conkit-signature/inventory.rs:307-319 | any permutation, even with repetitions, gives the same verdict and the same inventory |
| MergeLaws.DeterminedByEntriesAndContexts | conkit-signature/inventory.rs:236-240 | a valid inventory is determined by its entries and contexts; the group index carries nothing more |
| InventoryDigests.ValidIsComplete | conkit-signature/inventory.rs:576-600 | in an inventory that keeps the partition no group lists an entry that is missing, so the missing-entry error cannot arise |
| Diff.LabelPeers.Peer | conkit-signature/inventory.rs:693-702 | the peer is the first candidate with the same shape and contract, otherwise the first with the least contract digest of that shape, otherwise none |
| Diff.LabelPeersAbsentFrom | conkit-signature/inventory.rs:743-761 | the peer index holds, in order, exactly the groups whose label does not carry their shape on the other side |
| Diff.IndexGroups | conkit-signature/inventory.rs:712-734 | the shape counts and label sets of the built index agree with the groups it holds |
| Diff.MergeResiduals | conkit-signature/inventory.rs:479-507 | the two-pointer merge leaves exactly the two multiset differences, each in sorted order |
| Diff.Classify | conkit-signature/inventory.rs:650-673 | an unmatched group's categories follow shape counts and the peer index exactly as specified on the bare indexes |
| Diff.DiffAgainst | conkit-signature/inventory.rs:440-552 | returns the complete entry sequence, or fails with the count limit exactly when that sequence is longer than the limit; missing entries are the only other error |
| DiffIdentity.DiffAgreesWithIdentity | conkit-signature/inventory.rs:440-552 | without a collision on the messages hashed, the diff is empty if and only if the contract digests are equal |
| DiffIdentity.EmptyDiffMeansSameDigest | conkit-signature/inventory.rs:345-365 | an empty diff implies equal contract digests for every hash whatever |
| DiffIdentity.SameIndexIffSameTags | conkit-signature/inventory.rs:554-574 | two label indexes are equal if and only if the labelled group digests are the same multiset |
| DiffLaws.DiffMirrors | conkit-signature/inventory.rs:440-552 | swapping the sides gives entry for entry, in the same order, Added and Removed and the two digests exchanged, categories unchanged |
| DiffLaws.NameDiffConserves | conkit-signature/inventory.rs:463-546 | per label: Added minus Removed is the change in group count, the two never both occur, and entries number the larger multiset difference |
| DiffLaws.DiffConservesGroups | conkit-signature/inventory.rs:440-552 | over the whole diff Added minus Removed is the change in the number of groups |
| DiffLaws.EveryEntryHasACategory | conkit-signature/inventory.rs:633-673 | every entry, Changed ones included, names at least one category, with no assumption about the hash |
| DiffMeaning.EveryEntryMeans | conkit-signature/inventory.rs:633-673 | a change shows the contract digests of a current and of a previous group of its label, in that order, and its categories are exactly the parts that differ: shape digest, extraction context, metadata, never labels; an addition is an unmatched current group, a removal an unmatched previous one, categorised by shape counts and by the peer |
| DiffMeaning.DiffMeans | conkit-signature/inventory.rs:440-552 | the whole diff label by label: entries go by label in byte order, and under each label the two multiset differences, sorted, are paired as changes and the surplus is added or removed |
| DiffMeaning.PeerMeans | conkit-signature/inventory.rs:685-703 | the peer of a group is a group of its shape under a label that lacks the shape here: of its exact contract if there is one, else of the least contract digest, the lowest label and group on a tie; and there is none if and only if no such group exists |
| DiffLaws.NameDiffIsMinimal | conkit-signature/inventory.rs:479-546 | no script of group additions, removals and replacements turning one side of a label into the other is shorter than its diff |
| DiffLaws.NameDiffIsAScript | conkit-signature/inventory.rs:479-546 | the diff's own pairing is such a script, of exactly the diff's length |
| Relabelling.TotalRelabelling | conkit-signature/inventory.rs:522-546 | if each label is kept or sent to an unused label, the diff has exactly two entries per moved group, none Changed, every category set exactly {Labels}, for any repetition of shapes and contexts |
| Relabelling.RelabellingMovesIdentity | conkit-signature/inventory.rs:325-365 | a relabelling never changes the label-free source-shape digest, and changes the contract digest if and only if it moves a label |
| Relabelling.ExactPeer | conkit-signature/inventory.rs:693-702 | a group that is itself a candidate is its own peer, whatever other candidates share its shape |
| Compare.CompareAgainst | conkit-signature/inventory.rs:367-437 | ascending diagnostics, one for exactly each group with a differing or extra entry; a mismatch shows the contract group's shape digest as expected and the source group's as actual, for the least differing entry, and a missing report means that entry is absent; or the count limit exactly when they do not fit |
| Compare.ReportsExplain | conkit-signature/inventory.rs:376-437 | that reading of the diagnostics, told on the entries of the two inventories |
| Compare.ReportsAreExact | conkit-signature/inventory.rs:375-430 | a group reports if and only if a differing entry belongs to it or an extra entry is charged to it, and the least differing entry decides the report |
| Compare.FirstIsLeast | conkit-signature/inventory.rs:375-417 | the entry that decides a group's report is the least differing one of the group |
| Compare.EveryDifferenceIsReported | conkit-signature/inventory.rs:367-438 | every differing or extra entry is charged to a group that reports |
| Compare.NoReportsIffSameEntries | conkit-signature/inventory.rs:367-438 | no diagnostics if and only if both sides hold the same entry ids with equal digests, whatever the grouping |
| Compare.MismatchIsExact | conkit-signature/inventory.rs:387-407 | without a collision on the two contents, a mismatch shows two different digests if and only if the two groups differ in their sorted names and entry digests |
| Compare.MismatchShowsDifference | conkit-signature/inventory.rs:387-407 | they do differ whenever no other entry of the source group bears the entry's semantic name |
| Compare.ScopesMakeNamesUnique | conkit-signature/languages/rust/parser/yaml/input/contract.rs:115-123 | entries that carry their group's document scope never share a semantic name within it |
| Compare.ScopedMismatchShowsDifference | conkit-signature/inventory.rs:387-407 | for inventories scoped as the parsers scope them a mismatch always shows two different digests |
| Compare.SwappedDigestsShowNothing | conkit-signature/inventory.rs:387-407 | two valid inventories in which one group holds two entries of one semantic name with their digests swapped: both ids differ, yet the mismatch shows one digest twice, for every hash |
| WorkPool.InitHolds | conkit-signature/work.rs:127-161 | a pool starts with every permit of both semaphores free and its operations fresh, or is refused exactly when the two capacities overflow |
| WorkPool.AdmissionIsSafe | conkit-signature/work.rs:163-193 | at every point of every run: both semaphores conserve permits, executing bodies never exceed max_in_flight, an active permit without admission exists only in a skipped sketch closure, a result is observable only after both permits are back, no polled future sees WorkerDropped |
| WorkPool.QueueFullExactly | conkit-signature/work.rs:168-171 | a poll is refused with QueueFull if and only if every admission permit is held |
| WorkPool.ActiveMeansAdmittedExactly | conkit-sketch/work.rs:168-198 | the pools in which every run keeps admission with every active permit are exactly the signature crate's and those without operations |
| WorkPool.SketchSkipCanHoldActiveAlone | conkit-sketch/work.rs:180-183 | every sketch pool with an operation has a run in which a skipped closure gives admission back before its active permit |
| WorkPool.DroppedBeforeCheckNeverRuns | conkit-signature/work.rs:176-181 | a body that has not started when its future is gone never runs at any later point, wherever its worker stands between the two checks |
| WorkPool.KeptPollingIsAnswered | conkit-signature/work.rs:163-194 | an operation nobody drops ends, once nothing more can happen, refused if its own poll met full admission, and otherwise completed with the result of a body that ran |
| WorkPool.UndroppedIsPolled | conkit-signature/work.rs:163-194 | at every point such an operation still has its future, and it is refused if and only if its poll found every admission permit held |
| WorkPool.CompletionIsEarned | conkit-signature/work.rs:181-193 | a caller sees completion only of a body that ran and whose result was sent, with both permits back |
| WorkPool.DropReachesTheBody | conkit-signature/work.rs:247-254 | a dropped operation ends with its future gone and both permits back, and a spawned body has been told: receiver closed, cancellation flag up |
| WorkPool.ResultNeedsAReceiver | conkit-signature/work.rs:186-191 | once the receiver of an unanswered operation is closed no result is ever delivered to it |
| WorkPool.UndoomedCanRun | conkit-signature/work.rs:176-182 | the condition is exact: a queued body that is not cancelled can still run within two steps |
| WorkPool.RankFalls | conkit-signature/work.rs:163-193 | every step of every operation strictly decreases one rank |
| WorkPool.RunsAreBounded | conkit-signature/work.rs:163-193 | no run is longer than the rank it starts from |
| WorkPool.SomeStepIsEnabled | conkit-sketch/work.rs:168-198 | while an operation is unsettled some step that drops nothing is enabled: no deadlock on either semaphore |
| WorkPool.RestIsFree | conkit-signature/work.rs:163-193 | when no step is left every operation has settled and every permit of both semaphores is free |
| Race.WokenUnlessHandedOver | conkit/context.rs:80-95 | a race suspended after a request has finished has been woken if and only if no other request still carries the waker it took |
| Race.NoLostWakeUp | conkit/context.rs:80-153 | when no other request carries a waker, a finished request has woken the suspended race |
| Race.SerialRequestsWake | conkit/context.rs:56-62 | along any run in which at most one request is under way at each point, as from the one handler thread, a finished request means that the suspended race is awake |
| Race.SecondRequestCanFinishFirst | conkit/context.rs:80-95 | a concrete run with two handlers in which a request finishes while the race sleeps, so the exact condition is needed |
| Race.QuietMeansAwake | conkit/context.rs:80-153 | once only a new poll or a drop can happen, all requests have finished, the mutex is free and a suspended race that was requested is awake |
| Race.SomeStepIsEnabled | conkit/context.rs:134-159 | the mutex never blocks everybody: while work is left some internal step is enabled |
| Race.RankFalls | conkit/context.rs:80-153 | internal steps strictly decrease one rank, so they cannot go on for ever |
| Race.WakersRunUnlocked | conkit/context.rs:82-94 | a waker is invoked only by a request that does not own the mutex |
| Race.RequestedRaceNeverSuspends | conkit/context.rs:118-131 | a race that is not suspended when a request is made never suspends again: its current poll and every later one ends it |
| Race.RequestedPollIsCanceled | conkit/context.rs:118-121 | a request made before a poll begins ends that poll as canceled: nothing is registered and the inner future is not polled |
| Race.SuspendedRacesHavePolled | conkit/context.rs:123-129 | a race suspends only after polling its inner future in the current poll and finding it pending |
| Race.CanceledPollTakesItsWaker | conkit/context.rs:147-149 | a poll that finds the request while it holds the mutex takes its own waker back before letting go |
| Race.DroppedIsAbandoned | conkit/context.rs:166-170 | a race dropped before its end is abandoned, whatever happens later |
| Race.CompletedValueWins | conkit/context.rs:123-124 | an inner value that completes wins, whatever requests do before the race is over |
| Race.OutcomesAreEarned | conkit/context.rs:111-132 | a finished race reports completion only after the inner future was ready, abandonment only after a drop, cancellation only if requested |
| Race.FinishedRaceLeavesNoWaker | conkit/context.rs:161-169 | once the race is over the waker slot is empty and stays empty through any later requests |
| Normalize.FromBytes | conkit-sketch/normalize.rs:109-160 | the fused scan equals folding CRLF left to right then dropping one final LF, with the LF ranges; it accepts exactly the values that fit both budgets and otherwise reports the bound crossed first, plus one |
| Normalize.NormalizeSnippet | conkit-sketch/normalize.rs:9-21 | a snippet is accepted exactly when its raw length and its normalised line count fit, and the error says which bound and how much |
| Normalize.NormalizeSource | conkit-sketch/normalize.rs:23-63 | a source is accepted if and only if its normalised bytes and lines fit the source limits; else the error names the byte resource if the bytes cross first and the line resource otherwise |
| Lines.RangesAreTheSplit | conkit-sketch/normalize.rs:109-160 | recorded ranges are exactly the LF split, tile the buffer with one LF between neighbours, and number one more than the LFs |
| Lines.IndexReadsLines | conkit-sketch/normalize.rs:162-179 | is_empty, line_count and line_at read the LF split: every line, the count (0 when empty), nothing past the end of a nonempty value |
| Lines.EqualityIsByteEquality | conkit-sketch/normalize.rs:214-228 | line-wise equality of normalised values is equality of their bytes |
| Lines.SplitIsLines | conkit-sketch/normalize.rs:275-281 | joining the split gives the text back and no line contains a terminator |
| Lines.SplitJoin | conkit-sketch/normalize.rs:275-281 | conversely every nonempty list of LF-free lines is the split of its join |
| Lines.PrintedNormalises | conkit-sketch/normalize.rs:306-323 | printing any byte string line by line with CRLF and normalising gives it back, lines ending in CR and the empty value included |
| Lines.NormaliseIsStable | conkit-sketch/normalize.rs:306-323 | normalise, print, normalise gives an equal value for every input |
| Lines.LineEndingsDoNotMatter | conkit-sketch/normalize.rs:289-304 | CRLF and LF texts of the same lines normalise alike if and only if no terminated line ends in CR |
| Lines.CarriageReturnMatters | conkit-sketch/normalize.rs:109-160 | the failing input: a line ending in CR before another line normalises differently in the two texts |
| Matching.MatchingUsage.RecordLineComparison | conkit-sketch/limits/matching.rs:118-129 | one unit is charged, and refused exactly when it crosses the limit; a limit of u64::MAX is never crossed |
| Matching.MatchesAt | conkit-sketch/normalize.rs:181-208 | says whether the snippet occurs at the start, charging exactly the lines compared up to the first difference, or reports the comparison limit |
| Matching.EvaluateScan | conkit-sketch/matcher.rs:488-531 | within budget it returns the specified evaluation and charges exactly its work; otherwise it reports the budget that gives out first in scan order |
| Matching.HitsAreOccurrences | conkit-sketch/matcher.rs:496-521 | the counted starts are all starts where the snippet occurs, overlapping ones included, once each in order |
| Matching.OccursMeans | conkit-sketch/normalize.rs:181-208 | the snippet occurs at a start if and only if it is not empty and every line of it is the source line beneath it |
| Matching.CostMeans | conkit-sketch/normalize.rs:181-208 | each start with room costs one comparison for every line up to and including the first that differs, and any other start none |
| Matching.FindBestCandidate | conkit-sketch/matcher.rs:533-592 | returns the specified candidate and charges one comparison per start and snippet line, or reports the comparison limit |
| Matching.BestStartIsEarliestBest | conkit-sketch/matcher.rs:538-565 | the selected start is the earliest of maximal aligned score |
| Matching.ScoreMeans | conkit-sketch/matcher.rs:545-556 | the score of a start is the number of snippet lines that agree with the source line beneath them |
| Matching.CandidateIsExactly | conkit-sketch/matcher.rs:533-592 | a candidate is returned if and only if it satisfies the algorithm-free description: earliest best start, window cut at the end, first differing line |
| Matching.MissingHasCandidate | conkit-sketch/matcher.rs:533-592 | a snippet missing from a nonempty source always gets a candidate |
| Matching.CandidateReportsRealLines | conkit-sketch/matcher.rs:280-310 | the span lies in the source, the expected line exists, and the actual line is absent if and only if the reported source line is one past the end |
| SketchCheck.SketchDiagnostics.Reserve | conkit-sketch/limits/output.rs:103-158 | a diagnostic is admitted exactly when one more entry and its separator and serialised bytes fit, count before bytes |
| SketchReport.SkeletonGrows | conkit-sketch/inventory.rs:179-211 | the derived JSON of a diagnostic is its skeleton's, grown by exactly the bytes of the two excerpt texts |
| SketchCheck.TotalIsSerialised | conkit-sketch/limits/output.rs:88-158 | the charged total is the exact length of the serialised array of the diagnostics collected, at most one a sketch |
| SketchCheck.SketchDiagnostics.PushCandidate | conkit-sketch/matcher.rs:233-263 | charging the empty skeleton and then the measured excerpts admits exactly the final serialised diagnostic and pushes it, or refuses by the count, then by the bytes |
| SketchCheck.SketchDiagnostics.PushNotMatched | conkit-sketch/matcher.rs:223-264 | the candidate search is charged only if one more diagnostic may be reported; success pushes the specified diagnostic, and a refusal is by the count, the search or the bytes, in that order |
| SketchCheck.MatchCandidateEvidence.Measure | conkit-sketch/matcher.rs:319-341 | the measured addition is what both excerpt texts add to the skeleton's JSON |
| SketchCheck.SortIgnoresOrder | conkit-sketch/inventory.rs:246-250 | diagnostics whose location and kind tell them apart sort to one list, whatever order they came in |
| SketchCheck.UniqueIdsTell | conkit-sketch/inventory.rs:246-271 | with unique sketch ids no two diagnostics of a check compare equal |
| SketchCheck.TotalPermutation | conkit-sketch/matcher.rs:632-666 | total work and the multiset of diagnostics do not depend on contract order |
| SketchCheck.ContractOrderDoesNotMatter | conkit-sketch/matcher.rs:632-666 | with unique ids, sorted diagnostics, totals and legibility are the same for every contract order |
| SketchMeaning.VerdictIs | conkit-sketch/matcher.rs:96-160 | what is reported of a sketch, told on the lines: nothing when it occurs often enough; its exact location; a candidate laid at the earliest best start that shows the first line not agreeing, the snippet's as expected and the source's as actual, escaped so that it can be read back, truncated or missing exactly when it should be; or the number of occurrences and the first spans |
| SketchMeaning.DiagnosticsMean | conkit-sketch/matcher.rs:632-666 | any arrangement of the direct loop's diagnostics reports every unsatisfied sketch in that way and nothing else |
| SketchMeaning.WorkMeans | conkit-sketch/matcher.rs:488-565 | a sketch is charged the comparisons of every start looked at, one occurrence for each start found, and, found nowhere, one comparison for each pair of a source line and a snippet line |
| SketchMeaning.PayableMeans | conkit-sketch/limits/output.rs:88-158 | the budgets cover a check if and only if each limit covers its total, the bytes with brackets and commas; u64::MAX covers everything |
| SketchMeaning.DiagnosticLeqMeans | conkit-sketch/inventory.rs:246-271 | diagnostics sort by sketch id, contract file, document, source file and kind, in turn |
| GroupedCheck.JudgeOne | conkit-sketch/matcher.rs:116-160 | one sketch is judged and charged as the direct loop would, and refused exactly when the totals so far with it do not fit, with the error of the first budget to give out |
| GroupedCheck.AppendDiagnostics | conkit-sketch/matcher.rs:96-163 | a group succeeds exactly when its source normalises and the running totals fit, matched and reported sketches adding up to it; else the error is its source's or that of its first sketch not covered |
| GroupedCheck.Groups | conkit-sketch/matcher.rs:58-85 | each file's group is exactly its sketches in contract order |
| GroupedCheck.FlattenIsPermutation | conkit-sketch/matcher.rs:58-85 | visiting the groups loses and repeats no sketch |
| GroupedCheck.Check | conkit-sketch/matcher.rs:632-666 | the grouped check succeeds exactly when every referenced source fits the source limits and the budgets cover the direct loop's totals; matched plus failed is the sketch count; its diagnostics show what the verdict on each sketch is, in report order, and with unique ids are the direct loop's, sorted; a refusal is that of the first group in file order that is illegible or not covered |
| GroupedCheck.ChecksVisitInOrder | conkit-sketch/matcher.rs:58-85 | sketches are visited once each, by source file in path order and within a file in contract order |
| GroupedCheck.RefusalNamesItsLimit | conkit-sketch/matcher.rs:632-666 | a refused check names a limit of its own, exceeded by one, with the source file of one of its sketches for normalisation and matching and its contract file for the report; or has no room for an empty report |
| GroupedCheck.CheckRefusedIsUnique | conkit-sketch/matcher.rs:632-666 | that description leaves a refused check exactly one error to return |
| Evidence.JsonArrayReads | conkit-signature/limits.rs:778-817 | the accounted text is real JSON of the texts: reading the array back gives every text (sections 5 and 7 of RFC 8259) |
| Evidence.SerializedTextBytes | conkit-signature/limits.rs:807-816 | the byte fold is the exact length of the JSON string, saturated at u64::MAX |
| Evidence.DiagnosticEvidenceUsage.RecordText | conkit-signature/limits.rs:779-805 | the ledger is the exact length of the JSON array of the accepted texts; a text is accepted exactly when the array with it fits, and a refusal changes nothing |
| Evidence.DiagnosticExcerptEvidence.Measure | conkit-sketch/matcher.rs:400-422 | the measuring pass ends with the length of the text the other pass builds and the JSON bytes that text adds |
| Evidence.DiagnosticExcerptEvidence.Materialize | conkit-sketch/matcher.rs:434-459 | the materialised excerpt is the escaped retained prefix with its truncation flag |
| Evidence.EscapeIsInjective | conkit-sketch/matcher.rs:446-453 | escaped excerpts of different retained bytes are different |
| Evidence.EscapedReads | conkit-sketch/matcher.rs:446-453 | reading an escaped excerpt byte by byte gives back the retained bytes |
| Evidence.PlainBytes | conkit-sketch/matcher.rs:446-453 | a byte is written as itself exactly when it is printable and neither a quote nor a backslash |
| Ledgers.GeneratedOutputMeter.Record | conkit-signature/limits.rs:983-1002 | one event of the meter's history: the total moves before it is checked, returned bytes grow only on success, and they stay within any limit below u64::MAX, failed records or not |
| Ledgers.GeneratedOutputMeter.CommitReturnedBuffer | conkit-signature/limits.rs:1052-1070 | outcome by outcome: stale buffers are refused, an accepted one is returned whole and added to the total, a refused commit changes nothing, and the final record of a fresh intact buffer reports a limit if and only if the meter was over it before |
| Ledgers.OverdrawnMeterRefusesEmptyOutput | conkit-signature/limits.rs:983-1070 | a concrete history in which a failed direct record makes a later empty fresh buffer fail |
| OutputHistory.EveryHistoryIsAccounted | conkit-signature/limits.rs:983-1070 | over every history of records and commits, canceled, stale and refused ones included: the total is the saturated sum of everything charged, and what was returned is the longest prefix of it that fits the limit (everything, at u64::MAX) |
| OutputHistory.LongestFitIsUnique | conkit-signature/limits.rs:983-1002 | that description leaves exactly one sequence of returned lengths |
| OutputHistory.ReturnedWithinLimit | conkit-signature/limits.rs:983-1070 | in every history the returned sum is within its limit if and only if the limit is below u64::MAX or everything charged fits a u64, and it is the total if and only if everything charged fits the limit |
| OutputHistory.OverdrawnReturnsNothing | conkit-signature/limits.rs:983-1070 | once a record has been refused by the limit no later record or commit returns anything, whatever comes |
| OutputHistory.StaleForEver | conkit-signature/limits.rs:1052-1064 | a buffer opened before another output moved the total can never be committed, however much later |
| Ledgers.CommittedIsReturned | conkit-signature/limits.rs:966-1002 | at every moment of a meter's life those two equivalences hold of its own total and what it returned |
| Ledgers.SaturatedMeterReturnsPastLimit | conkit-signature/limits.rs:983-1002 | the failing history at u64::MAX: three records of slices of the greatest length are all accepted |
| Ledgers.ReturnedOutputBuffer.Write | conkit-signature/limits.rs:1151-1172 | a write is taken whole exactly when it fits and no chunk sees cancellation; anything less makes finish fail |
| Ledgers.ReturnedOutputBuffer.CheckpointFormat | conkit-signature/limits.rs:1140-1147 | a formatting checkpoint that sees cancellation makes finish fail, and any other leaves the buffer as it was |
| Ledgers.ReturnedOutputBuffer.Finish | conkit-signature/limits.rs:1117-1138 | success returns every byte ever offered; the recorded failure decides the error |
| Ledgers.GeneratedOutputMeter.OpenScratchWriter | conkit-signature/limits.rs:1072-1078 | a new writer holds an empty reservation under a fresh ticket; a cancelled open is no event at all |
| Ledgers.ScratchWriter.Write | conkit-signature/limits.rs:1256-1293 | one event of the meter's history: at most 64 KiB is taken and charged exactly when nothing failed before, the saturating counter stays within its limit and the buffer can grow, never past isize::MAX; a failure sticks and retains nothing |
| Ledgers.ScratchWriter.WriteAll | conkit-signature/limits.rs:1306-1310 | a run of writes by this writer alone: everything is retained, or a prefix is and the failure sticks |
| Ledgers.ScratchWriter.FinishText | conkit-signature/limits.rs:1210-1245 | success moves the reservation to the text with the counter unchanged; any failure gives all of it back, and the first failure on record decides the error |
| Ledgers.ScratchWriter.Drop | conkit-signature/limits.rs:1312-1316 | dropping a writer ends its ticket and gives back exactly what it reserved |
| Ledgers.ScratchText.Drop | conkit-signature/limits.rs:1330-1334 | dropping a text ends its ticket and gives back exactly its length |
| ScratchHistory.ReleaseIsExact | conkit-signature/limits.rs:1080-1085 | in every history under a limit below u64::MAX, and under that limit while live bytes fit one address space, a holder never reserves more than is retained, so the saturating release is exact and its debug assertion holds |
| Ledgers.HoldersDoNotInterfere | conkit-signature/limits.rs:1191-1334 | an event of one holder leaves every other live writer and text of the meter in charge of its own reservation |
| ScratchHistory.EveryScriptBalances | conkit-signature/limits.rs:1199-1334 | over every interleaving of open, write, finish, failure and drop by any number of holders: retained scratch stays within its limit, never exceeds the live reservations, and equals their sum under any limit below u64::MAX |
| ScratchHistory.FittingScriptBalances | conkit-signature/limits.rs:1199-1334 | under every limit, u64::MAX included: after every history whose live bytes fit one address space, retained scratch is the sum of the live reservations and within the limit |
| ScratchHistory.BalancesExactly | conkit-signature/limits.rs:1270-1291 | history by history the condition is exact: retained scratch is the live sum all along if and only if the live bytes fit one address space all along |
| ScratchHistory.LimitKeepsMemory | conkit-signature/limits.rs:1270-1279 | under a limit below u64::MAX every history meets that condition |
| Ledgers.RetainedIsLive | conkit-signature/limits.rs:966-982 | at every moment of a meter's life those bounds hold of its own counter and holders, with equality under the same condition |
| Ledgers.AllDroppedIsEmpty | conkit-signature/limits.rs:1312-1334 | once every writer and text of a meter has gone it retains nothing, whatever the limit and the history |
| CatalogRead.CatalogReadBudget.ReadFileWithCeiling | conkit/catalog.rs:179-213 | for every short-read schedule the outcome depends only on the length and the three limits, at most one byte past the tightest is consumed, and only a completed read is committed |
| CatalogRead.CatalogReadBudget.ReadFile | conkit/catalog.rs:167-177 | the same without an external ceiling, whose error cannot arise |
| CatalogRead.CatalogReadBudget.CompareFile | conkit/catalog.rs:220-254 | equals reading the file and comparing: the same lengths accepted and refused, same ledger change, and the answer is equality with the bytes a read returns |
| CatalogRead.CatalogReadBudget.FinishFile | conkit/catalog.rs:363-388 | actual bytes are committed, or the limit they break is reported and nothing changes |
| CatalogRead.CatalogReadBudget.BeginEntry | conkit/catalog.rs:300-312 | one entry is reserved, or the entry limit is reported and nothing changes |
| CatalogRead.CatalogReadBudget.RecordEntryBytes | conkit/catalog.rs:262-268 | a decoded entry is charged exactly when entry, file and total limits allow; the entry stays counted when its bytes are refused |
| CatalogRead.CapDecides | conkit/catalog.rs:347-355 | reading one byte past the tightest limit is enough evidence to decide every outcome |
| CatalogRead.ReceivedMeans | conkit/catalog.rs:179-213 | below u64::MAX a file is read whole if and only if it fits the ceiling, the file limit and the rest of the total; otherwise the tightest decides, the ceiling before the file limit before the total on a tie, and the error names it |
| CatalogRead.CompleteIsWhole | conkit/catalog.rs:179-213 | a completed read carries the whole content if and only if the total limit is below u64::MAX or the running total cannot pass it by more than one |
| CatalogRead.SaturatedTotalTruncates | conkit/catalog.rs:179-388 | the exception is reached: a history of three decoded entries after which a begun two-byte file completes as its first byte, for every read schedule |
| CatalogRead.PreflightAgrees | conkit/catalog.rs:320-341 | the metadata check and the read agree on a length if and only if the total limit is below u64::MAX, or the length fits the file limit, or the file limit is no looser than what is left of the total |
| CatalogRead.PreflightRefusesWhatIsRead | conkit/catalog.rs:179-388 | a history of four decoded entries after which the metadata check refuses a file over the per-file limit and the read accepts its first byte as all of it |

## Left out
- The order of the drops inside a skipped sketch closure: Rust leaves it open, so the model allows every order.
- Cancellation checkpoints inside inventory, normalisation and matching loops: each can only end the operation early with the cancellation error. The ledgers, buffers and reads do model them.
- SHA-256 itself, and the rendering of digests into messages and reports.
- Memory ordering weaker than sequential consistency, panics and their payloads, allocation failure outside the scratch writer, and the scheduling of the thread pool.
- YAML, Rust syntax and rustdoc front ends, sketch contract parsing, editing and diffing: they rest on external parsers.
- Archives, the compiler driver, command dispatch and the platform layer: plumbing around library calls.
- The sketch crate's own output ledgers, the traversal counter and the remaining count limits: easy members beside those modelled.
- Report counters of catalog entries and referenced files, display text and error wording.
