# sudoStream verification

A Dafny model of the parts of the sudoStream media server whose correctness is not visible from one
function body: intro detection by fingerprint alignment, the maintenance run protocol, the library
root registry, the series catalog and provider grouping, the HLS segment timeline, metadata merging,
show keys, and SOCKS5 UDP framing. `dafny verify dfyconfig.toml` checks all of it.

Code that works by updating variables is modelled by methods with loops (or by classes whose methods
assign fields), each proved against a function or a predicate; the laws of that function are lemmas.
Code that only computes values is modelled by functions. Go map iteration is modelled by a loop that
picks keys in an arbitrary order, so every result proved about such a loop holds for every order.

Every answer is described twice: by the functions that follow the code, and by an independent statement
of what it is, with its own definitions and every limit written out. The reference files hold the second
description and the proofs that both agree, so changing a step of the code breaks a proof.

| file | what it models |
|---|---|
| `SkipMatch.dfy`, `SkipMatchLaws.dfy`, `SkipMatchReference.dfy` | the alignment search of two chromaprint fingerprints, what its result means, and the same said of the two fingerprints alone |
| `SkipConsensus.dfy`, `SkipConsensusLaws.dfy` | votes of a season's pairs, quorum, medians, hits; the consensus by counting votes |
| `SkipChapters.dfy` | intros from embedded chapters |
| `Sorting.dfy`, `Rounding.dfy`, `Picking.dfy` | what Go's sort and rounding functions return, the order statistics the medians rest on, and filtered lists told by positions |
| `MaintenanceLocks.dfy` | the lock table as an object, lock keys, request validation |
| `MaintenanceProtocol.dfy`, `MaintenanceLaws.dfy`, `MaintenanceOutcomes.dfy`, `MaintenanceFinality.dfy` | RunNow, execute, Cancel, Start and crashes as interleaved atomic steps; the invariant; safety along every run; which status a run ends with and what a status tells; that every call can end; when a status is final |
| `AccessPaths.dfy`, `AccessRequests.dfy`, `AccessCleaning.dfy` | path normalisation and containment, request paths and the roots they meet, what decoding and cleaning do to a request path |
| `AccessRegistry.dfy`, `AccessOutcomes.dfy`, `AccessService.dfy` | the registry of library roots, what each operation returns and leaves, the service's loops over it |
| `Catalog.dfy`, `ProviderGroups.dfy`, `CatalogReference.dfy` | the catalog's index loops, the provider's show groups, and their agreement; rows, pages and groups told by the positions of their paths |
| `HlsTimeline.dfy`, `HlsBitrates.dfy`, `HlsReference.dfy` | keyframes, the shared segment table, cut times, seeks, bitrates; tables, seeks and rates told by keyframes and packets alone |
| `MetadataMerge.dfy`, `MetadataRecord.dfy`, `MetadataReference.dfy` | overrides, path heuristics, provider patches and fill-missing writes; the same done step by step on a record, and the stored row; what becomes of every single field |
| `WordRuns.dfy`, `ShowKey.dfy`, `Naming.dfy` | splitting text into words and joining them; show keys and slugs; titles read from file names |
| `SocksUdp.dfy`, `SocksReference.dfy` | section 7 of RFC 1928: encoding, decoding, reading from a stream, receiving; the datagrams byte by byte |

## Findings

Some promises fail on inputs the code accepts. Each is proved with its exact condition, or shown by a
concrete sequence of steps, instead of being assumed away.

- `NormalizeRelPath` is not idempotent. A second pass changes nothing exactly when the trimmed path has
  no slash or space right behind a leading slash (`AccessPaths.NormalizeIdempotentIff`); "/ a" is an
  example. Registered roots stay removable all the same (`AccessRegistry.EveryRootRemovable`).
- The hidden check on a new root looks at the root normalised a second time. "//." is accepted as the
  root "/.", whose one component is a dot; `AccessPaths.AcceptedRootHasDotIff` gives the exact spellings.
- Roots are not cleaned as request paths are. A request path without outer spaces can lie in an accepted
  root exactly when the root, normalised once more, has no slash or space at either end and no doubled
  slash (`AccessRequests.RootServesIff`; `RootReachedIff` for paths with outer spaces). "movies/" is
  accepted, holds no such path, and does not overlap "movies/x", so two libraries can register nested
  directories (`TrailingSlashServesNothing`, `TrailingSlashOverlapsNothingBelow`). Non-overlap is about
  strings; between plain roots it is exactly about directories (`ContainmentIsByComponents`).
- A patch that sets a list to an empty one is accepted and does not stick: the stored JSON leaves empty
  lists out, so the original list shows on the next read. A list entry of a patch, text or items, takes
  effect exactly when the list it asks for is not empty or the original is
  (`MetadataRecord.PatchedListTakesEffectIff`, `EmptyGenresDoNotStick`).
- The comment on Cancel's second path (internal/maintenance/service.go:343) takes a missing lock entry
  for a lost job. Between storing the row and binding its id the entry of a live job is not found either
  (`MaintenanceLaws.LiveJobMissedIffUnbound`): the row becomes canceled while the job runs on, and its
  success is stored over the cancellation (`CanceledRowTurnsSuccessful`). A Cancel that read the row
  early can likewise overwrite a stored success (`SuccessfulRowTurnsCanceled`): the store's FinishRun
  updates by id alone (internal/maintenance/postgres/store.go:215-245). When a status can still change
  is exactly `MaintenanceFinality.FinalIff`.
- A failed FinishRun leaves its row running after the lock is gone, so a key can have two running rows
  (`TwoRunningRowsAfterFailedFinish`); without failed writes it cannot (`OneRunningRowPerKey`).
- A copy run is to begin with the keyframe it starts on. With another keyframe within 2 ms before that
  one it can begin early: on keyframes 5.999 and 6.0 the second run begins with the first of them
  (`HlsTimeline.CloseKeyframesBeginEarly`; `RunBeginsOnTargetIff` is the exact condition).
- A decoded datagram whose address is an IPv4-mapped IPv6 address or an empty domain cannot be encoded
  again (`SocksUdp.EncodeOfDecode`, `EmptyDomainCannotBeReencoded`, `MappedAddressCannotBeReencoded`).

And some code is proved to have no effect: the duration filters on matches and hits, the participation
gate when paths are distinct, both clamps of the partner floor, the clamp of the confidence, the checks of a
new root for the trash and for ".." beside the hidden check (`AccessPaths.AcceptedRootIff`), the check for request paths that leave the media root, the emptiness check
of provider fields on what is stored (it does decide whether the call counts as applied), and the final
maximum of the peak bitrate on tables without short segments.

## Model

| member | source | states |
|---|---|---|
| SkipMatch.MaxSkewItems | internal/skipsegment/match.go:31 | the skew in items is the least item count whose duration covers the skew in seconds |
| SkipMatch.MinItems | internal/skipsegment/match.go:33-37 | the shortest intro is 81 items |
| SkipMatch.MaxItems | internal/skipsegment/match.go:34-40 | the longest intro is 1211 items |
| SkipMatch.ItemPositionIsNearest | internal/skipsegment/match.go:186-192 | an item's millisecond position is the whole number nearest to index times 4096000/33075, halves up, and 0 for negative indexes |
| SkipMatch.BitAgreementIsFraction | internal/skipsegment/match.go:180-182 | the xor and bit count computation is the share of the 32 binary digits at which the words are equal; it is symmetric and within [0, 1] |
| SkipMatch.BitsAreBinaryDigits | internal/skipsegment/match.go:180-182 | the bits compared are the binary digits: the lowest is the parity, the others are those of the half |
| SkipMatch.SmoothScores | internal/skipsegment/match.go:158-178 | the nested loops fill a new slice with the centred moving average |
| SkipMatch.SmoothedStaysInRange | internal/skipsegment/match.go:158-178 | averaging never leaves the range of the scores |
| SkipMatch.BestSubwindow | internal/skipsegment/match.go:137-156 | the sliding sum finds the leftmost window of maximum sum; a short run is returned whole |
| SkipMatch.ComputeMatchFromRun | internal/skipsegment/match.go:118-135 | the loop averages the window and places it in both episodes |
| SkipMatch.CloseRun | internal/skipsegment/match.go:88-98 | a finished run is trimmed, dropped if short, and kept only if it beats the best so far |
| SkipMatch.BestOfRuns | internal/skipsegment/match.go:74-101 | scanning with runStart keeps the first best over all maximal runs, the one touching the end included |
| SkipMatch.BestRunAtOffset | internal/skipsegment/match.go:58-102 | aligning, scoring, smoothing and scanning give the best run of one offset; too short an overlap gives none |
| SkipMatch.LongestMatch | internal/skipsegment/match.go:26-55 | the loop keeps the first best run over all offsets within the skew; empty fingerprints match nothing; what it finds is SkipMatchReference.LongestMatchIsBest |
| SkipMatchLaws.FirstBestIsFirstMaximum | internal/skipsegment/match.go:42-54 | keeping a strictly better candidate yields the first maximum of an order, and nothing only if there is no candidate; the order is spelled out in SkipMatchReference.LongestMatchIsBest |
| SkipMatchLaws.CandidateAtIsCandidateOf | internal/skipsegment/match.go:76-98 | every run the scan considers is a maximal run, whole or cut to its leftmost maximum-sum window |
| SkipMatchLaws.CandidateOfIsCandidateAt | internal/skipsegment/match.go:76-98 | every maximal run, so cut, is considered by the scan |
| SkipMatchLaws.LongestMatchIsMostPreferred | internal/skipsegment/match.go:26-156 | the result is preferred to every run of every offset; what preferred means in scores, lengths and positions is SkipMatchReference.LongestMatchIsBest |
| SkipMatchReference.LongestMatchIsBest | internal/skipsegment/match.go:26-156 | said of the fingerprints alone: the result has the highest score of all candidates within the skew, at equal scores the longest duration, then the smallest offset, then the earliest start; there is none exactly when no candidate exists |
| SkipMatchReference.CandidatesAgree | internal/skipsegment/match.go:58-156 | a candidate is a maximal run of at least 81 positions whose five-term mean agreement is at least 0.70, over 1211 positions cut to the leftmost 1211 of the largest sum, with its mean as score and its length in seconds |
| SkipMatchReference.AgreementIsLocal | internal/skipsegment/match.go:104-116 | the smoothed scores of an offset are, position by position, the mean agreement of the positions at distance two or less that both fingerprints have |
| SkipMatchReference.LongestMatchMissesIff | internal/skipsegment/match.go:26-102 | there is no match exactly when no offset within the skew has 81 positions in a row with a five-term mean of 0.70 or more |
| SkipMatchLaws.LongestMatchMissesIffNoLongRun | internal/skipsegment/match.go:26-102 | there is no match exactly when no offset within the skew has 81 consecutive smoothed scores at or above 0.70 |
| SkipMatchLaws.CandidateBounds | internal/skipsegment/match.go:58-135 | both index ranges are in bounds and of one length, shifted by the offset, every score in them is at least 0.70, and so is their mean |
| SkipMatchLaws.ItemSpanMs | internal/skipsegment/match.go:186-192 | rounding both ends of 81 to 1211 items separately keeps the span within 10000 to 150000 ms |
| SkipMatchLaws.LongestMatchBounds | internal/skipsegment/match.go:31-40 | every match spans 81 to 1211 items, 10 to 150 s and 10000 to 150000 ms in both episodes |
| SkipMatchLaws.BestRunMirrors | internal/skipsegment/match.go:58-102 | swapping the episodes and negating the offset mirrors the result of one offset exactly |
| SkipMatchLaws.LongestMatchSymmetric | internal/skipsegment/match.go:43-54 | both directions agree on whether there is a match, on its score and on its duration, in spite of tie-breaking |
| SkipMatchLaws.UniqueLongestMatchMirrors | internal/skipsegment/match.go:43-54 | without ties the two directions are mirror images |
| SkipConsensus.OnlyScanWindowRejects | internal/skipsegment/consensus.go:86-96 | a match casts votes exactly when both starts are inside their scan windows: the other filters never reject |
| SkipConsensusLaws.PairVotesTellMatch | internal/skipsegment/consensus.go:78-108 | a pair votes exactly when the best match within 180 s of skew starts inside both scan windows, and each vote holds its path, the nearest milliseconds of its two ends and the score |
| SkipConsensus.CollectPair | internal/skipsegment/consensus.go:78-108 | one pair appends one vote to each side, or nothing |
| SkipConsensus.CollectPairwiseVotes | internal/skipsegment/consensus.go:74-113 | the triangular loop gives every path exactly the votes its pairs cast for it, in loop order, and the table no other entries; episodes may share a path |
| SkipConsensus.PathVotesAreEpisodes | internal/skipsegment/consensus.go:76-112 | when paths are distinct the votes of a path are one per agreeing partner of its episode, in partner order |
| SkipConsensusLaws.VotesByPairs | internal/skipsegment/consensus.go:74-113 | on any episodes, shared paths included: the votes of a path are exactly those that agreeing pairs cast for it, as many as there are sides of agreeing pairs with that path |
| SkipConsensus.MedianRange | internal/skipsegment/consensus.go:133-151 | starts and ends are sorted separately, the middle ranks taken, and the scores averaged; that these are middle values and a mean by counting is SkipConsensusLaws.HitIffMiddle |
| SkipConsensusLaws.MedianIffMiddle | internal/skipsegment/consensus.go:142-150 | a value is the reported one exactly when it occurs, at most half of the values are smaller, and more than half are at most it |
| SkipConsensusLaws.HitIffMiddle | internal/skipsegment/consensus.go:133-151 | a hit is the middle of its votes' starts, the middle of their ends and the mean of their scores, and nothing else is |
| SkipConsensus.HitIsValid | internal/skipsegment/consensus.go:133-151 | though start and end may come from different votes, the median range of valid votes is a valid intro of an episode of the path, with confidence in [0.70, 1] |
| SkipConsensus.VotesAreMutual | internal/skipsegment/consensus.go:97-108 | votes form a symmetric graph |
| SkipConsensus.OnePartnerPerVote | internal/skipsegment/consensus.go:76-112 | when paths are distinct an episode has as many distinct partners as votes |
| SkipConsensus.QuorumForcesParticipation | internal/skipsegment/consensus.go:36-53 | when paths are distinct, a path with votes from half of the season forces one more voted path than it has votes, so the participation gate is open |
| SkipConsensus.SharedPathClosesGate | internal/skipsegment/consensus.go:36-45 | two matching episodes of one path have a quorum and a closed gate |
| SkipConsensus.PartnerFloorIsHalf | internal/skipsegment/consensus.go:47 | for two or more episodes both clamps are no-ops and the floor is half of the season, rounded up |
| SkipConsensus.CollectHits | internal/skipsegment/consensus.go:49-66 | the hits are exactly those of the entries that meet the floor, whatever the map order; the duration check drops none |
| SkipConsensus.ConsensusIntros | internal/skipsegment/consensus.go:30-72 | on any episodes: the result is exactly the hits of the paths with votes from half of the season, in strictly increasing path order, if enough paths have votes, and else empty; by counting it is SkipConsensusLaws.ConsensusByCounting |
| SkipConsensusLaws.ConsensusByCounting | internal/skipsegment/consensus.go:30-72 | a path has a hit exactly when the season has two episodes, it has votes from half of them, and two paths and half as many paths as episodes have votes; the hit is the middle of these votes, with their mean score |
| SkipConsensus.ConsensusOfDistinctPaths | internal/skipsegment/consensus.go:30-72 | when paths are distinct the result is exactly those hits: the gate drops out too |
| SkipConsensus.ConsensusHitsAreValid | internal/skipsegment/consensus.go:50-66 | every hit is a valid intro inside the scan window of an episode of its path |
| SkipConsensus.ConsensusIsUnique | internal/skipsegment/consensus.go:49-71 | the answer does not depend on map order |
| SkipChapters.ScanWindowSec | internal/skipsegment/chapters.go:92-102 | the scan window is the smaller of ten minutes and 30 percent of the runtime, and nothing without a runtime |
| SkipChapters.SecondsToMs | internal/skipsegment/chapters.go:126-132 | the nearest whole millisecond, halves up, and 0 for times that are not positive |
| SkipChapters.IntroFromChapters | internal/skipsegment/chapters.go:44-89 | the intro is the first chapter that opens a run of intro-titled chapters and has the times of an intro; a later chapter of a run never qualifies, and there is none exactly when no chapter does |
| SkipChapters.QualifiesIff | internal/skipsegment/chapters.go:50-80 | which chapters qualify: titled as an intro and no recap, not right behind such a chapter, 10 to 150 s long, starting within ten minutes and 30 percent of the runtime |
| SkipChapters.RoundedIntroTimes | internal/skipsegment/chapters.go:81-85 | rounding both ends keeps the span within 10000 to 150000 ms and the start within half a millisecond of the scan window |
| Sorting.SortedDominates | internal/skipsegment/consensus.go:142-143 | if every end exceeds its start by a bound, so does every rank of the sorted ends over the sorted starts |
| Sorting.SortKeepsDistinct | internal/skipsegment/consensus.go:67-69 | sorting elements that never tie gives a strictly increasing list |
| Sorting.SortedIsUnique | internal/skipsegment/consensus.go:67-69 | a strictly increasing list is determined by its elements |
| MaintenanceLocks.SameLockIffSameScope | internal/maintenance/types.go:112-156 | two accepted requests contend for one lock exactly when they have one action and, for library actions, one library |
| MaintenanceLocks.RunNowAccepts | internal/maintenance/service.go:404-422 | an action is accepted exactly when it is one of the eight, a library action only with a library; a global action forgets its library and a missing trigger is manual |
| MaintenanceLocks.LockTable.TryLock | internal/maintenance/service.go:569-578 | takes a free key for its own context and leaves a held table alone |
| MaintenanceLocks.LockTable.BindRunId | internal/maintenance/service.go:580-587 | sets the run id of a held key and nothing else |
| MaintenanceLocks.LockTable.Unlock | internal/maintenance/service.go:589-593 | removes exactly its key |
| MaintenanceLocks.LockTable.CancelFuncForRun | internal/maintenance/service.go:595-605 | finds a job exactly when some entry has the run id, in any map order |
| MaintenanceLaws.LockedIffRefused | internal/maintenance/service.go:607-613 | the key isLocked looks up is held exactly while a call for it is in flight, and exactly then a RunNow of the request is refused |
| MaintenanceProtocol.StepKeepsInv | internal/maintenance/service.go:167-605 | every atomic step of RunNow, execute, Cancel, Start and every crash keeps the invariant tying locks, calls, rows and pending cancellations together; which status a step stores is MaintenanceOutcomes.ResultDecidesStatus |
| MaintenanceOutcomes.ResultDecidesStatus | internal/maintenance/service.go:518-567 | after the action has returned and FinishRun was stored, the call's row is a success exactly for no error on a context that was not cancelled, a failure exactly for an error that is no cancellation, canceled otherwise, and no other row has changed |
| MaintenanceOutcomes.StatusTellsCause | internal/maintenance/service.go:107-567 | in every reachable state a row's status tells exactly which write it comes from: success, failure and cancellation of an action by its result and context, a forced cancellation, or a restart |
| MaintenanceOutcomes.CanceledWasAsked | internal/maintenance/service.go:315-365 | in every reachable state a canceled row had a Cancel accepted for it, or its action itself reported a cancellation |
| MaintenanceOutcomes.ContextCancelledIff | internal/maintenance/service.go:315-340 | the context of a live call is cancelled exactly by a Cancel whose lookup found this very call |
| MaintenanceOutcomes.RestartFailsRunning | internal/maintenance/service.go:107-124 | a restart that can write fails exactly the rows that were running |
| MaintenanceOutcomes.EveryCallCanEnd | internal/maintenance/service.go:167-207 | from every reachable state each call in flight can go on by its own steps until it is gone and its lock is free, whether its insert and its last write succeed or fail and whatever its action returns |
| MaintenanceLaws.MutualExclusion | internal/maintenance/service.go:167-207 | in every reachable state at most one call in flight holds a key and the lock table is exactly the keys in flight, failed inserts included; with no call in flight it is empty |
| MaintenanceLaws.StepsTouchOwnEntry | internal/maintenance/service.go:580-593 | binding an id and unlocking touch only the entry of the call that does it |
| MaintenanceLaws.RunningRowsAreOwned | internal/maintenance/service.go:107-124 | while the process is up, a running row has its inserting call in flight and holding the key, exactly unless a failed FinishRun or a failed Start left it behind |
| MaintenanceLaws.OneLiveRowPerKey | internal/maintenance/service.go:424-446 | of two running rows of one key at least one was left behind by a failed write |
| MaintenanceLaws.OneRunningRowPerKey | internal/maintenance/service.go:518-567 | while no write has failed, each key has at most one running row and its owner holds the key |
| MaintenanceLaws.RowsNeverRunAgain | internal/maintenance/service.go:107-567 | along every run rows keep their key, never disappear and never return to running |
| MaintenanceLaws.CancelHitsOwnJob | internal/maintenance/service.go:315-365 | a job found for a run id is that run's own, and a live job is cancelled only when its own run was asked to stop |
| MaintenanceLaws.LookupFindsBoundJobs | internal/maintenance/service.go:595-605 | the lookup of a run succeeds exactly while its call is in flight with the id bound |
| MaintenanceLaws.LiveJobMissedIffUnbound | internal/maintenance/service.go:333-350 | Cancel takes its "no live job" path for a live job exactly when the row is stored and the id not yet bound |
| MaintenanceFinality.FinalIff | internal/maintenance/service.go:315-567 | the status of a row never changes again, crashes and restarts included, exactly when it is not running, the row's own call is gone or writes nothing else, and the row is canceled or no Cancel of it can still force it |
| MaintenanceLaws.CanceledRowTurnsSuccessful | internal/maintenance/service.go:333-350 | a concrete sequence of steps after which a force-canceled row becomes successful |
| MaintenanceLaws.SuccessfulRowTurnsCanceled | internal/maintenance/service.go:325-350 | a concrete sequence of steps after which a stored success becomes canceled |
| MaintenanceLaws.TwoRunningRowsAfterFailedFinish | internal/maintenance/service.go:548-555 | a concrete sequence of steps after which a failed FinishRun leads to two running rows of one key |
| AccessPaths.NormalizeIdempotentIff | internal/access/path.go:22-31 | normalising twice is normalising once exactly when the trimmed path has no slash or space right behind a leading slash |
| AccessPaths.NormalizeNotIdempotent | internal/access/path.go:22-31 | "/ a" is a path on which it is not |
| AccessPaths.NormalizedByCases | internal/access/path.go:22-31 | the result is the trimmed path without one leading slash, and empty exactly for nothing, a slash, a dot and a dot behind a slash |
| AccessPaths.TrimSpaceIsMiddle | internal/access/path.go:22-31 | trimming takes away exactly the outer spaces |
| AccessPaths.NormalizedHasSpelling | internal/access/path.go:22-31 | every non-empty result, put behind a slash, normalises to itself |
| AccessPaths.AcceptedRootsAreVisible | internal/access/service.go:638-648 | an accepted root, normalised once more, has no component that starts with a dot, and the trash check is implied by the hidden check |
| AccessPaths.AcceptedRootIff | internal/access/service.go:638-648 | exactly which spellings are accepted: the checks for ".." and the trash reject nothing that the hidden check does not |
| AccessPaths.AcceptedRootHasDotIff | internal/access/service.go:638-648 | an accepted root itself has a component that starts with a dot exactly when its spelling is a lone dot behind two slashes, spaces aside |
| AccessPaths.DotRootAccepted | internal/access/service.go:638-648 | "//." is accepted as "/." |
| AccessRequests.UnescapePathLimited | internal/access/path.go:63-80 | the loop decodes until nothing changes, at most twice, and refuses what is still encoded or holds a null |
| AccessRequests.CanonicalRelPath | internal/access/path.go:36-61 | a request path is trimmed, decoded and cleaned, and refused when that fails; what decoding and cleaning give is AccessCleaning.DecodedIff and the laws below it |
| AccessCleaning.DecodedIff | internal/access/path.go:63-80 | a path is decoded once, once more if that changed it, and accepted exactly when both decodings succeed and no encoded dot or slash and no null is left |
| AccessCleaning.ParentGoesUp | internal/access/path.go:82-90 | ".." behind a name takes the name away: what is in front of both and what follows stay |
| AccessCleaning.DotStays | internal/access/path.go:82-90 | "." between two texts changes nothing |
| AccessCleaning.ParentOfRootIsRoot | internal/access/path.go:82-90 | a leading ".." stays at the media root |
| AccessCleaning.SlashesDrop | internal/access/path.go:82-90 | outer and doubled slashes change nothing; with the three laws above and CleanFixesIff this determines the cleaned path |
| AccessCleaning.CanonicalHasNothingEncoded | internal/access/path.go:36-80 | no accepted path holds an encoded dot or slash or a null: cleaning brings none back |
| AccessCleaning.CanonicalIff | internal/access/path.go:36-61 | the canonical path is what cleaning makes of the decoded path, for every path that can be decoded |
| AccessCleaning.EncodedParentIsResolved | internal/access/path.go:33-61 | "lib/..%2fother/file" is the path "other/file", so it belongs to the library of "other" |
| AccessRequests.CleanFixesIff | internal/access/path.go:82-90 | cleaning gives a path without outer or doubled slashes and without "." and ".." elements, and leaves exactly such paths alone |
| AccessRequests.CanonicalIsCleaned | internal/access/path.go:36-61 | an accepted request path is cleaned, so it has no ".." element, and a request is refused exactly when it cannot be decoded: the check for paths that leave the media root never rejects |
| AccessRequests.ContainmentIsByComponents | internal/access/path.go:111-122 | between cleaned paths without outer spaces containment is containment of directories: the elements of the root come first |
| AccessRequests.RootServesIff | internal/access/service.go:638-648 | a cleaned request path without outer spaces can lie in an accepted root exactly when the root, normalised once more, is such a path itself |
| AccessRequests.RootReachedIff | internal/access/service.go:638-648 | any cleaned request path can exactly when the root, normalised once more, is not empty and has no leading and no doubled slash |
| AccessRequests.UnreachableNeverMatched | internal/access/path.go:153-171 | whatever is requested, its canonical path lies in no other root |
| AccessRequests.TrailingSlashServesNothing | internal/access/service.go:638-648 | "movies/" is accepted and holds no cleaned path without outer spaces |
| AccessRequests.TrailingSlashOverlapsNothingBelow | internal/access/path.go:125-127 | "movies/" does not overlap "movies/x", a directory below it |
| AccessPaths.ContainersOverlap | internal/access/path.go:111-127 | two roots containing one path overlap |
| AccessPaths.OverlapIffShared | internal/access/path.go:125-127 | two roots overlap exactly when some path lies in both |
| AccessPaths.ByteLengthAddsUp | internal/access/path.go:153-171 | the lengths compared are those of the UTF-8 texts |
| AccessPaths.WithinTransitive | internal/access/path.go:111-122 | containment is transitive |
| AccessRegistry.StoreAddKeepsNonOverlapping | internal/access/postgres/store.go:178-247 | the store's transaction alone keeps roots non-overlapping, even after stale checks |
| AccessRegistry.AddRootIsStoreAdd | internal/access/service.go:297-342 | on a non-overlapping registry an accepted AddRoot is exactly its store transaction: the subsumption of roots inside the new one never happens |
| AccessRegistry.AddRootSucceedsIff | internal/access/service.go:297-342 | AddRoot succeeds exactly on a valid root for an existing library that is registered already or overlaps nothing: re-adding a registered root never conflicts |
| AccessRegistry.AddedRootHasOneOwner | internal/access/service.go:297-342 | after a success the target library alone owns the root and every other registration is unchanged |
| AccessOutcomes.AddRootOutcome | internal/access/service.go:297-342 | each error with its exact condition; an error changes nothing; after a success the target alone owns the root, no other registration changes, and exactly the libraries disappear that owned nothing else |
| AccessOutcomes.StoreAddOutcome | internal/access/postgres/store.go:178-247 | the same of the store transaction on any registry: there the new root replaces the library's roots inside it |
| AccessOutcomes.RemoveRootOutcome | internal/access/service.go:345-357 | each error with its exact condition; a removal takes away just that registration, and the library exactly with its last root |
| AccessOutcomes.DeleteLibraryOutcome | internal/access/service.go:360-367 | a deletion takes away exactly that library and its registrations |
| AccessOutcomes.PruneOutcome | internal/access/service.go:379-444 | pruning keeps exactly the registrations whose directory is there, and the libraries that keep a root or never had one |
| AccessRegistry.OpKeepsNonOverlapping | internal/access/service.go:255-444 | creation, AddRoot, RemoveRoot, deletion, pruning and a late store commit each keep roots non-overlapping |
| AccessRegistry.EverySequenceNonOverlapping | internal/access/service.go:255-444 | so does every sequence of them |
| AccessRegistry.EveryRootRemovable | internal/access/service.go:345-357 | every root registered by any sequence of operations can be removed by some spelling, double normalisation notwithstanding |
| AccessRegistry.MatchLibrary | internal/access/path.go:153-171 | the loop returns the library of the first root of most bytes containing the canonical path, and none exactly when there is no such root or path |
| AccessRegistry.AtMostOneRootContains | internal/access/path.go:111-122 | in a non-overlapping registry at most one registered root contains a path |
| AccessRegistry.MatchIsTheOwner | internal/access/path.go:153-171 | on any listing, in any order, the match is the unique owner of the path |
| AccessRegistry.FoundIffOwned | internal/access/path.go:153-171 | a listing has a containing root exactly when the registry does |
| AccessService.Service.ListLibraries | internal/access/postgres/store.go:40-56 | lists every library once with exactly its roots, in some order |
| AccessService.Service.StoreAddRoot | internal/access/postgres/store.go:178-247 | the loops over the target's roots are the store transaction |
| AccessService.Service.StoreRemoveRoot | internal/access/postgres/store.go:250-292 | removes the root; with the last one the library goes too, reported as "library not found" |
| AccessService.Service.AddRoot | internal/access/service.go:297-342 | the nested loops with their early returns give one result for every listing order, and keep the invariant |
| AccessService.Service.RemoveRoot | internal/access/service.go:345-357 | removes what the argument normalises to; an empty argument is an error |
| AccessService.Service.DeleteLibrary | internal/access/service.go:360-367 | removes exactly that library with its roots |
| AccessService.Service.PruneLibraryRoots | internal/access/service.go:417-444 | drops one library's missing roots one by one; losing the last one ends the loop without error and reports the library gone |
| AccessService.Service.PruneMissingRoots | internal/access/service.go:379-407 | keeps exactly the present roots, deletes exactly the libraries that lost their last root, and counts removed roots and kept libraries right |
| HlsTimeline.ParsePackets | internal/transcode/keyframes.go:66-99 | the loop keeps exactly the strict running maxima of the keyframe times that are not negative, and a sample of every row with a positive size |
| HlsReference.SamplesAreSizedRows | internal/transcode/keyframes.go:85-88 | the samples are the rows of a positive size, each once and in the order of the listing |
| HlsReference.KeptIff | internal/transcode/keyframes.go:90-96 | a keyframe is kept exactly when its time is not negative and no keyframe before it reaches it |
| HlsTimeline.Normalize | internal/transcode/keyframes.go:104-125 | shifting keeps the order and exactly the keyframes at or after the container start, and moves every packet alike |
| HlsTimeline.ComputeSegmentStart | internal/transcode/playlist_vod.go:95-102 | the loop sums the lengths before an index, clamped to the table |
| HlsTimeline.ComputeKeyframeSegments | internal/transcode/playlist_vod.go:48-73 | the loop with its pending cut is the greedy cutting of the keyframes |
| HlsTimeline.KeyframeTableIsSound | internal/transcode/playlist_vod.go:48-73 | cuts fall on keyframes only, every segment but the last reaches the target, none is under 0.1 s, and the lengths add up to the duration up to 0.1 s |
| HlsTimeline.EqualTableIsSound | internal/transcode/playlist_vod.go:75-92 | for any positive target the fallback has no segment over the target or under the shorter of target and 0.1 s, and adds up to the duration up to 0.1 s |
| HlsTimeline.TableCoversMedia | internal/transcode/playlist_vod.go:31-46 | so does whichever table is published; without a positive duration and target there is none |
| HlsReference.PublishedTable | internal/transcode/playlist_vod.go:31-92 | with keyframes and 0.1 s of media every segment ends on the first keyframe at least a target after its start, or else with the media, and under 0.1 s are left over; otherwise all segments have the target length but for the rest; without duration or target there is no table |
| HlsReference.KeyframeTableIsUnique | internal/transcode/playlist_vod.go:48-73 | that description determines the table |
| HlsTimeline.CutTimes | internal/transcode/ffargs.go:60-71 | a run's accumulated cuts, shifted by its start, are the shared table's boundaries |
| HlsTimeline.SearchFloats | internal/transcode/ffargs.go:87 | the loop is the binary search, on any list |
| HlsTimeline.SearchIsFirst | internal/transcode/ffargs.go:87 | on an ordered list it finds the first position whose element is not below the key |
| HlsTimeline.TrimPositiveIff | internal/transcode/ffargs.go:81-100 | the trim is positive exactly for copy runs past zero whose start is within 2 ms of a keyframe |
| HlsReference.RunSeeks | internal/transcode/ffargs.go:81-140 | for every run: both seeks add up to the timestamp offset; a run that may not copy, starts at zero or has no keyframe within 2 ms seeks its input to its start and nothing else; any other cuts at the latest of zero, half a second before its start and the middle back to the keyframe before its target, and seeks its input 1.5 s before its start |
| HlsTimeline.CutSeparatesKeyframes | internal/transcode/ffargs.go:81-140 | for a run that trims: the cut falls strictly after the keyframe before the target; it is not after the target exactly when the start is no further behind the target than the target is behind the keyframe before it; both seeks add up to it. Every run, trimmed or not, is HlsReference.RunSeeks |
| HlsTimeline.RunBeginsOnTargetIff | internal/transcode/ffargs.go:81-126 | a copy run that starts on a keyframe begins with it exactly when no keyframe within 2 ms precedes it, or the one right before it is nearer than half of the way back to the last keyframe further off |
| HlsTimeline.SpacedRunsBeginOnTarget | internal/transcode/ffargs.go:81-126 | with keyframes more than 2 ms apart every copy run begins with the keyframe it starts on |
| HlsTimeline.CloseKeyframesBeginEarly | internal/transcode/ffargs.go:81-126 | on the table of keyframes 5.999 and 6.0 the second run begins with the first of them |
| HlsTimeline.EveryCopyRunTrims | internal/transcode/ffargs.go:81-140 | every run of a keyframe table but the first starts on a keyframe, so its copy seek trims, and the exact condition says whether it begins with that keyframe |
| HlsBitrates.SegmentBitrates | internal/transcode/keyframes.go:130-168 | the loops compute the truncated average over all packets and the largest truncated rate of the long segments, at least the average; empty inputs give zeros |
| HlsReference.BitratesByCounting | internal/transcode/keyframes.go:130-168 | by counting bytes: the average is the whole bits per second of all packets over all lengths, and the peak the largest of it and of the rates of the segments of 3 s or more, each over the packets that fall in it |
| HlsBitrates.BucketHoldsPacket | internal/transcode/keyframes.go:146-151 | a packet is counted in a segment that starts before it, up to the epsilon, while the next does not; on tables without negative lengths no later one does |
| HlsBitrates.BucketsConserveBytes | internal/transcode/keyframes.go:143-151 | the bytes of all buckets add up to the bytes of all packets |
| HlsBitrates.PeakCoversAverage | internal/transcode/keyframes.go:157-168 | without segments under half the target the peak is at least the average even with every rate truncated |
| HlsBitrates.OnlyTailCanBeShort | internal/transcode/keyframes.go:157-168 | on a keyframe table the length of the last segment alone decides that |
| ShowKey.NormalizeShowKey | internal/metadata/naming.go:142-164 | the builder with its dash flag yields the dash-join of the maximal letter and digit words of the lowered, trimmed name |
| ShowKey.Slugify | internal/access/service.go:650-668 | slugs meet the same specification |
| WordRuns.WordsOfJoin | internal/metadata/naming.go:142-164 | a key's words are the name's words again, as for any words joined by a separator |
| ShowKey.SameKeyIffSameWords | internal/metadata/naming.go:142-164 | two names share a key exactly when they have the same words |
| ShowKey.KeyShape | internal/metadata/naming.go:142-164 | a key has no leading, trailing or doubled dash |
| ShowKey.KeyIsIdempotent | internal/metadata/naming.go:142-164 | the key of a key is the key |
| Catalog.ShowRows | internal/catalog/path_index.go:66-92 | there is one row per key, with the first path's title, the seasons, the number of paths and the least path |
| CatalogReference.KeptOfPath | internal/metadata/catalog_denorm.go:50-85 | what is kept of a path: with a key, a missing season or episode is 0 and the title is the trimmed show name; without one, both stay missing |
| Catalog.ShowsPage | internal/catalog/path_index.go:94-111 | the page is cut from a listing of every show once, by lowered name, in any order of equal names; the total is the number of keys |
| CatalogReference.ListingByPositions | internal/catalog/path_index.go:66-111 | a listing has exactly the keys read from some path, each once, in the order of lowered names; a row has the title of the show's first path, the seasons and the number of its paths, and the least of them |
| Catalog.GetShowAgg | internal/catalog/path_index.go:114-170 | an aggregate exists exactly when the show has paths, and lists its seasons in increasing order, each with its number of paths |
| CatalogReference.AggByPositions | internal/catalog/path_index.go:122-167 | the seasons are exactly those read from the show's paths, increasing, each with the number of these paths |
| Catalog.ShowExists | internal/catalog/path_index.go:173-190 | true exactly when the show has paths |
| Catalog.SeasonEpisodes | internal/catalog/path_index.go:193-247 | the requested page of the sorted episodes of one season, and as total the number of paths the aggregate counts for it |
| CatalogReference.EpisodesByPositions | internal/catalog/path_index.go:202-242 | a season's rows are as many as its positions in the listing, each the row of such a path and every such path among them; numbered rows come first, by number, then by path |
| CatalogReference.PageByPositions | internal/catalog/path_index.go:249-260 | the length of a page and every row on it, for any limit and offset |
| Catalog.EpisodeLeIsTotalOrder | internal/catalog/path_index.go:229-242 | the episode comparator is a total order |
| Catalog.EpisodesNeverTie | internal/catalog/path_index.go:229-242 | rows of different paths never tie, so the sorted order is determined |
| Catalog.PagesTile | internal/catalog/path_index.go:249-260 | a page followed by everything after it is everything from its offset on |
| Catalog.SelectionsPartition | internal/catalog/path_index.go:66-92 | selecting by distinct keys partitions the paths |
| Catalog.ShowCountsCoverKeyedPaths | internal/catalog/path_index.go:66-103 | the episode counts of all shows add up to the number of paths with a key |
| Catalog.RowAgreesWithAgg | internal/catalog/path_index.go:66-170 | page row and aggregate of a keyed show agree on name, poster and number of seasons, and season counts add up to the episode count |
| Catalog.EmptyPathHasNoKey | internal/catalog/path_index.go:135-137 | the empty path, which the aggregate's loop takes for "no poster yet", belongs to no keyed show |
| Catalog.LeastIsLeast | internal/catalog/path_index.go:89-91 | no path of a show is smaller than its poster path |
| Sorting.StringLessIff | internal/catalog/path_index.go:89 | a text is less than another exactly when it is a proper prefix or has the smaller character where they first differ |
| ProviderGroups.GroupShows | internal/provider/fields.go:24-58 | the groups are exactly those of the paths with a name that is not blank, in strictly increasing key order, whatever the map order |
| CatalogReference.GroupByPositions | internal/provider/fields.go:24-58 | a group has exactly the paths whose name is not blank and has its key, sorted; the name of the first of them in the listing, the first year one of them has, and the least path as poster |
| ProviderGroups.GroupsPartitionPaths | internal/provider/fields.go:24-58 | a path is in a group exactly when its name is not blank and has the group's key |
| ProviderGroups.PosterIsFirstPath | internal/provider/fields.go:40-56 | the poster path is the first of the sorted paths |
| ProviderGroups.GroupMatchesCatalog | internal/provider/fields.go:24-58 | with identity from the path alone a group with a key has the catalog's paths of that show and its poster path |
| ProviderGroups.CatalogShowHasGroup | internal/provider/fields.go:24-58 | and the keys of those groups are exactly the keys of the catalog's shows |
| MetadataMerge.HeuristicsFieldByField | internal/metadata/merge.go:119-155 | every text and number after the path heuristics depends on its own earlier value and the path only: films fill gaps, series paths override season, episode and episode title |
| MetadataReference.EffectiveFieldByField | internal/metadata/merge.go:26-155 | every effective text, number and list by original, override, library type and path |
| MetadataMerge.CollectGenres | internal/metadata/provider_apply.go:67-79 | the loop keeps the trimmed genres that are not blank, in order |
| MetadataReference.GenresAreTrimmed | internal/metadata/provider_apply.go:67-79 | the genres written are the provider's that are not blank, trimmed, each once and in their order |
| MetadataMerge.WrittenIffPatch | internal/provider/enrich.go:519-532 | the store is written exactly when the patch of the missing fields is not empty: on what is stored the earlier emptiness check changes nothing |
| MetadataReference.FilledFieldByField | internal/provider/fields.go:94-185 | a fill-missing write puts exactly the provider's missing fields, trimmed, into the override, keeps every other field of it, and writes exactly when there is one |
| MetadataReference.RewrittenFieldByField | internal/metadata/provider_apply.go:50-85 | what a full rewrite makes of every field of the override |
| MetadataReference.FieldsLeftIff | internal/provider/enrich.go:519-541 | a call passes the emptiness check exactly when it has something to write, or genres that are all blank |
| MetadataMerge.FilledFieldsStay | internal/provider/fields.go:94-185 | a fill-missing write never changes a field that already resolves to something |
| MetadataMerge.TextFilled | internal/metadata/merge.go:26-155 | after it every text the provider has is filled, the episode title under the path's own included; which value is written is MetadataReference.FilledFieldByField |
| MetadataMerge.NumberFilled | internal/metadata/merge.go:26-155 | after it every number the provider has is set |
| MetadataMerge.GenresFilled | internal/metadata/provider_apply.go:67-79 | after it there are genres if the provider has one that is not blank |
| MetadataMerge.RepeatWritesNothing | internal/provider/enrich.go:511-541 | repeating it with the same provider fields writes nothing, although path heuristics override season, episode and episode title |
| Naming.CleanTitle | internal/metadata/naming.go:677-715 | a title read from a file name is its kept tokens joined by single spaces, the second split and join changing nothing; it is empty exactly when none is kept, and never blank text |
| Naming.KeptInOrder | internal/metadata/naming.go:677-715 | the tokens kept are those that are not dropped, each once and in their order |
| MetadataRecord.VideoRecord.Clone | internal/metadata/merge.go:164-186 | a copy drops lists that are present but empty |
| MetadataRecord.VideoRecord.Override | internal/metadata/merge.go:188-253 | every field the override has replaces the record's, the others stay |
| MetadataRecord.VideoRecord.FillFromPath | internal/metadata/merge.go:119-155 | the assignments through the record are the path heuristics |
| MetadataRecord.VideoRecord.ClearField | internal/metadata/merge.go:301-375 | clears exactly the named field |
| MetadataRecord.VideoRecord.SetField | internal/metadata/merge.go:377-537 | sets exactly the named field to the converted value, or refuses and changes nothing |
| MetadataRecord.ComputeEffectiveFields | internal/metadata/merge.go:26-42 | copying, overriding and filling in place give the effective fields |
| MetadataRecord.ApplyPatchFields | internal/metadata/merge.go:258-280 | a patch is refused exactly when some entry has an uneditable key or an unconvertible value, in any key order; else every named field has its new value or is cleared and every other field is kept |
| MetadataReference.TextEntry | internal/metadata/merge.go:377-548 | which text fields a patch may name, and that they take a text or the digits of a number and are cleared by a null |
| MetadataReference.NumberEntry | internal/metadata/merge.go:377-561 | the same of numbers, which take a number without its fraction or a text that parses |
| MetadataReference.ListEntry | internal/metadata/merge.go:377-617 | the same of lists, which take the parts of a text or a list of texts and numbers |
| MetadataReference.StringsOneByOne | internal/metadata/merge.go:598-617 | a list of values is accepted exactly when each is a text or a number, and reads as their texts in order |
| MetadataRecord.PatchedIsUnique | internal/metadata/merge.go:258-280 | the patched record does not depend on the order of the keys |
| MetadataRecord.UnpatchedListKept | internal/metadata/merge.go:258-280 | a patch of a stored override leaves the effective value of every list it does not name alone |
| MetadataRecord.PatchedListTakesEffectIff | internal/metadata/postgres/models.go:35-46 | a list entry of a patch, text or items, takes effect exactly when the list it asks for is not empty or the original is, since the stored JSON leaves empty lists out |
| MetadataRecord.EmptyGenresDoNotStick | internal/metadata/postgres/models.go:35-46 | setting the genres of a file tagged "Drama" to none is accepted, and "Drama" still shows |
| MetadataRecord.PutProviderString | internal/metadata/provider_apply.go:87-98 | adds the trimmed text unless it is missing or blank |
| MetadataRecord.ProviderPatchFields | internal/metadata/provider_apply.go:50-85 | the insertions build exactly the patch of the provider's fields: texts that are not blank, trimmed, numbers, and genres if any are left |
| MetadataRecord.ProviderPatchApplies | internal/metadata/provider_apply.go:30-48 | a provider's patch is never refused, and applying it merges exactly those fields over the override |
| MetadataRecord.MetadataRow.PatchOverride | internal/metadata/service.go:927-973 | a refused patch or a failing store leaves the row alone; else one write stores the patched override, without its empty lists |
| MetadataRecord.MetadataRow.WriteFields | internal/provider/enrich.go:511-541 | both modes: what the override becomes, whether the store is written, and when the call counts as applied or as an error |
| SocksUdp.EncodesIffEncodable | internal/network/socks_udp.go:226-279 | encoding succeeds exactly for IPv4 in either form, unmapped IPv6, and domains of 1 to 255 bytes |
| SocksReference.EncodedLayout | internal/network/socks_udp.go:226-279 | byte by byte what each kind of address encodes to, ports with the high byte first, and which error every other address gives |
| SocksReference.DecodedLayout | internal/network/socks_udp.go:282-347 | byte by byte what every datagram decodes to, or which error it gives: short, fragmented, unknown kind |
| SocksUdp.DecodeOfEncode | internal/network/socks_udp.go:226-347 | decoding an encoded datagram returns address, port and payload, for every address the encoder accepts |
| SocksUdp.EncodeOfDecode | internal/network/socks_udp.go:226-347 | encoding a decoded datagram restores it up to the reserved bytes exactly when its address is neither a mapped IPv6 address nor an empty domain |
| SocksUdp.EmptyDomainCannotBeReencoded | internal/network/socks_udp.go:258-262 | a datagram with an empty domain is accepted and cannot be encoded again |
| SocksUdp.MappedAddressCannotBeReencoded | internal/network/socks_udp.go:251-255 | so is one with 192.0.2.1 mapped into IPv6 |
| SocksUdp.Reader.ReadFull | internal/network/socks_udp.go:181 | takes exactly n bytes or fails with the stream used up |
| SocksUdp.Reader.ReadSocksAddr | internal/network/socks_udp.go:177-223 | the stream reader accepts what the buffer reader accepts, with one value and one number of bytes consumed, and fails with its own errors |
| SocksUdp.HeaderIsSmall | internal/network/socks_udp.go:282-347 | no accepted datagram has more than 262 bytes in front of its payload, which is its tail |
| SocksUdp.ReadOfPrefix | internal/network/socks_udp.go:305-347 | an address is read alike from any prefix of at least 258 bytes |
| SocksUdp.DecodeOfPrefix | internal/network/socks_udp.go:282-303 | cutting a datagram off behind 262 bytes changes neither verdict nor source and only shortens the payload |
| SocksUdp.ReadFrom | internal/network/socks_udp.go:368-384 | a payload that fits the caller's buffer is delivered whole without error, a longer one as its exact prefix with the short-buffer error, in spite of the bounded scratch buffer |

## Left out

- Floating point: scores, durations, times and rates are exact reals; rounding of float64 is not modelled.
- SkipConsensus.QuorumForcesParticipation: for distinct paths. The one caller takes its episodes from a listing keyed by library and path (internal/metadata/postgres/models.go:12-13), so they are; for shared paths the law fails (SkipConsensus.SharedPathClosesGate).
- Sorting: Go's sort functions are modelled by a function on sequences, not in place; only what they return matters to their callers.
- HlsTimeline.ParsePackets: starts from rows with a readable time; splitting lines and parsing numbers is not modelled.
- HlsTimeline.CutSeparatesKeyframes: the target is the first keyframe within 2 ms of the start, and no keyframe is negative, as the listing keeps none.
- HlsReference.PublishedTable: keyframes are strictly increasing and not negative, as the listing keeps them.
- HlsReference.BitratesByCounting: for tables of positive lengths, as every published table has them.
- HlsTimeline.RunBeginsOnTargetIff: takes the output seek to drop exactly the video packets before the cut, and the sum of segment lengths to be exact.
- MaintenanceProtocol.StepKeepsInv: the store's InsertRun, GetRun, FinishRun and MarkInterruptedRuns are single atomic steps, an insert that reports an error has stored nothing, run ids are fresh, and Start runs before any request.
- Maintenance actions, schedules and cron, run listings, metrics, logging and the skipped status.
- AccessService.Service.StoreAddRoot: moves roots only; the reassignment of metadata, watch and favourite rows below the root, slugs, names and types are not modelled, and transactions are serialisable.
- AccessService.Service.StoreRemoveRoot: removes roots only, not the metadata, watch and favourite rows below the root.
- AccessService.Service.ListLibraries: any order, where the store lists by name; nothing proved about a listing depends on its order.
- AccessRequests.CanonicalRelPath: url.PathUnescape is a parameter; filepath.Clean is modelled for slash paths below the media root.
- AccessRegistry.OpKeepsNonOverlapping: uses the roots of a library only, not the single-path fallback of RootPaths for fixtures; whether a directory exists is a parameter. Pruning keeps a library that never had a root, as the code does.
- Invalid UTF-8: paths and names are sequences of characters.
- ShowKey.KeyIsIdempotent: the Unicode tables are a parameter, assumed to map dashes and spaces to themselves, neither being a word character, and lower-casing to be idempotent.
- Filename parsing and chapter titles: the parsers and patterns built on regular expressions are parameters; of an episode title only its last steps are modelled (Naming.CleanTitle), and its type says what they guarantee.
- Catalog: film and flat libraries, and how a display name is built from a path, which is a parameter; that the empty path reads as the show "." is assumed (internal/metadata/naming.go:178-194, 454-485).
- Catalog.SeasonEpisodes: takes an offset that is not negative.
- MetadataRecord.ApplyPatchFields: number formatting, number parsing and list splitting are parameters; file hashes, which no override or patch touches, are left out.
- MetadataRecord.MetadataRow.PatchOverride: the checks of the media path before the patch and a failing read after the write are not modelled.
- MetadataRecord.MetadataRow.WriteFields: the override target only; the write to the media file is not modelled, nor a failing read of the row after the write or when there is nothing to write.
- SocksUdp: the handshake and associate exchange, WriteTo, and the text form of a domain source, which is kept as host and port.
- Provider queries, posters and subtitles, HTTP handlers, ffmpeg arguments other than the seeks, authentication, DLNA and file-system walks: plumbing around libraries, or easy members.
