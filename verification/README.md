# wallermax-server: verified models

Dafny models of the parts of wallermax-server that are decided by state,
arithmetic or parsing, with proofs of what those parts are for. Code that
updates its state step by step is modelled by classes and loops, each proved
to compute a specification function; what the server promises is then proved
about those functions, over all inputs, all runs and all reachable states.

| file | component |
|---|---|
| RateLimiter.dfy | the per-address token bucket limiter |
| LoginThrottle.dfy, LoginRuns.dfy | the failed-login throttle; runs of it and the bound on an address |
| LoginLockouts.dfy, LoginAnswers.dfy | the lockouts of a pair over runs and across sweeps; what an answer of the check is worth |
| RefreshTokens.dfy | the refresh token statements |
| TokenProtocol.dfy, TokenFamilies.dfy, TokenUsers.dfy | interleavings of workers on the token table; death of token families; logging out everywhere |
| PageHistory.dfy, HistoryRuns.dfy | page saves with numbered, pruned revisions; their history over runs |
| PageTree.dfy | the hop-bounded ancestor walk and the move guard of the page tree |
| Domains.dfy, VirtualHosts.dfy | the domain seeder and the host classification over its table |
| Calendar.dfy, DatetimeLocal.dfy | day counts against the day-by-day Gregorian calendar; the form field parser and printer |
| TemplateCompiler.dfy, TemplateMeaning.dfy | the two-pass template compiler; its agreement with a one-pass reading |
| HtmlEscape.dfy | the two HTML escapers |
| Bits.dfy, Proxy.dfy | CIDR masks as bit arithmetic; client address resolution |
| EnvExpansion.dfy | `${VAR}` expansion |
| Common.dfy, Text.dfy | option and result types; string operations of the Rust and JavaScript libraries |

`dafny verify dfyconfig.toml` checks everything.

A method of a class is proved equal to a specification function that follows
the same branches, and the methods on tables also state their effect row by
row. What the code is for is stated by the lemmas about the functions.

Assumptions that stand for what is not modelled:

- A mutex makes the calls of the limiter sequential. The throttle has one mutex
  for each of its maps and takes them one after the other, so the runs of
  LoginRuns hold recorded failures whole and in halves, in any order. Each SQL
  statement is one atomic step on a table. `Instant` is a real number, and
  floating point arithmetic is real arithmetic.
- The limiter's sweep reads its own clock. The reading is a parameter, taken
  to be no later than any later call.
- IP address syntax belongs to the standard library; the parser is a function
  parameter. So are `JSON.stringify` and the fixed frame of the program in the
  template compiler.
- Token hashes and time stamps are values that callers bring. A token value is
  known to nobody before the save that stores it has returned.
- The schema contributes unique names and hashes, ids that are never used
  again, and what deleting a page or an account takes along.

Findings about the code as it stands:

- The two template passes agree with a one-pass reading exactly for templates
  whose code blocks contain no echo opener (`TemplateMeaning.TwoPassesAgree`,
  `TemplateMeaning.ProgramsAgree`). `TemplateMeaning.SmallestDisagreement` is a
  template on which they part, and no shorter one exists
  (`TemplateMeaning.ShorterTemplatesAgree`).
- Revoking a token family is final exactly when no rotation is waiting to save
  its successor: the save does not look at revocation
  (`TokenFamilies.RevocationIsFinal`; a run is `TokenFamilies.LateSaveOutlivesRevocation`).
  The same holds for all sessions of a user (`TokenUsers.LogoutEverywhereIsFinal`).
- The move guard sees 127 levels. Under deeper pages a move that makes a cycle
  can pass it (`PageTree.AllowedMoveIsSafe`, `PageTree.DeepMoveLoops`). The
  comment at src/db.rs:1297-1300 speaks of an error beyond the bound; the code
  answers a shortened list, and the model follows the code.
- A page's newest snapshot equals the page exactly if the parent it names still
  exists (`HistoryRuns.HistoryIsTheNewestSaves`): deleting a parent changes the
  child without a revision (`HistoryRuns.DeletedParentLeavesNoRevision`).
- Listing a name does not always reclaim it for the CMS. Stored names are
  canonicalised when they load, so a hand-made row in another spelling can come
  first and keep the name (`VirtualHosts.ListedNameIsTheCms` says when,
  `VirtualHosts.HandWrittenNameShadows` is an input).
- Seeding leaves the rows as they are from the second boot on, but every boot
  takes an id for every listed name (`Domains.SeedingTwiceIsSeedingOnce`,
  `Domains.SeedingTakesIds`).
- Canonicalising a host name is idempotent exactly for names that, with one
  trailing dot gone, do not end in a dot or white space
  (`Domains.NormalizedIsCanonical`, `Domains.DottedNameIsNotCanonical`).
- An appended port can change a host's class exactly when the host in front of it
  ends in white space and is more than white space (`VirtualHosts.PortsNeverMatter`,
  `VirtualHosts.PortShieldsWhiteSpace`).
- The Retry-After hint of a rejected login is rounded down, and is too short exactly
  when more than one second and no whole number of seconds were left
  (`LoginAnswers.HintOutlastsLock`, `LoginAnswers.HintMayBeShort`).
- The sweep of login pairs forgets how often a pair was locked: a failure of
  another pair shortens the next lockout exactly when the map is full and the
  pair, locked before, is idle or the map is reset
  (`LoginLockouts.EscalationIsForgotten`; `LoginLockouts.SweepForgetsALockout` is
  such a map, and `LoginLockouts.FullMapIsReached` a run to it).
  The full lockout bound therefore holds for as long as no such failure comes
  (`LoginLockouts.PairLockoutBound`), and one with the shortest lockouts across
  any number of sweeps (`LoginLockouts.SweptPairLockoutBound`).

## Model

| member | source | states |
|---|---|---|
| RateLimiter.RateLimiter.TryAcquireAt | src/rate_limit.rs:80-105 | one call refills, sweeps or resets the full map, and takes a token, as the specification of a bounded map says |
| RateLimiter.RateLimiter.TrackedIps | src/rate_limit.rs:108-113 | the number of buckets, never more than 10,000 |
| RateLimiter.RateLimiter.constructor | src/rate_limit.rs:58-64 | a new limiter tracks nobody |
| RateLimiter.TakeToken | src/rate_limit.rs:118-136 | the in-place bucket update, step by step, is the specified one |
| RateLimiter.AcquireKeepsRange | src/rate_limit.rs:80-136 | tokens stay in [0, capacity] and the map within its bound |
| RateLimiter.RunsStayBounded | src/rate_limit.rs:80-105 | the same after every run, resets or not |
| RateLimiter.RetryAfterSuffices | src/rate_limit.rs:118-136 | a rejected client is served exactly from the instant its token is back, and always after the hinted seconds |
| RateLimiter.HintIsLeast | src/rate_limit.rs:128-136 | the hint is the least number of seconds after which the client is served: one less is too early, and it is one whenever one is enough |
| RateLimiter.SweepDropsTheFull | src/rate_limit.rs:141-152 | a sweep keeps exactly the buckets that would not be full by then, unchanged |
| RateLimiter.RoomForACall | src/rate_limit.rs:86-97 | other buckets go only when a new address meets 10,000 of them: the full ones, or all if 10,000 are active |
| RateLimiter.CallTakesItsToken | src/rate_limit.rs:80-105 | the caller's bucket, full if new, pays for the call; every other bucket there was room for stays as it is |
| RateLimiter.BurstDrawsTheLevel | src/rate_limit.rs:118-136 | a burst at one instant is served exactly up to the level, and the announced remainder is what a further burst can draw |
| RateLimiter.CallSimulates | src/rate_limit.rs:80-105 | one call of the swept map decides as the map that keeps everything, and stays related to it |
| RateLimiter.SweepingIsInvisible | src/rate_limit.rs:80-152 | between resets the swept limiter decides every call of a run like one that never forgets |
| RateLimiter.ResetStartsOver | src/rate_limit.rs:87-96 | from a reset on, the limiter answers like a new one |
| RateLimiter.AdmittedWithinAllowance | src/rate_limit.rs:116-138 | whatever the calls, an address draws no more than its level plus the refill |
| RateLimiter.AdmissionBound | src/rate_limit.rs:80-138 | between resets one address gets at most capacity + refill * (e - s) requests at instants in [s, e] |
| LoginThrottle.LoginThrottle.CheckAt | src/rate_limit.rs:241-282 | the address lock wins over the pair lock; otherwise the attempts left, for the lowercased username |
| LoginThrottle.LoginThrottle.RecordFailureAt | src/rate_limit.rs:290-363 | the whole state after a recorded failure |
| LoginThrottle.LoginThrottle.CountPair | src/rate_limit.rs:293-328 | the pair half: sweep, reset, count, escalate; a locked pair is only touched |
| LoginThrottle.LoginThrottle.CountAddress | src/rate_limit.rs:330-362 | the address half: sweep, reset, sliding window, lock |
| LoginThrottle.LoginThrottle.RecordSuccess | src/rate_limit.rs:368-374 | only the pair is forgotten |
| LoginThrottle.CountConsecutive | src/rate_limit.rs:322-327 | the fifth failure locks and starts the count again |
| LoginThrottle.CountInWindow | src/rate_limit.rs:343-361 | the queue pushed at the back and popped at the front is the pruned window |
| LoginThrottle.AllowedFailuresCount | src/rate_limit.rs:241-363 | where the check allows, the failure counts in both maps |
| LoginRuns.HalvesMakeAFailure | src/rate_limit.rs:290-363 | the two halves of a recorded failure, with no call in between, are the failure |
| LoginRuns.RunsStayBounded | src/rate_limit.rs:290-363 | over every run both maps stay within 10,000 keys and no pair counts to five |
| LoginRuns.CountRemembers | src/rate_limit.rs:341-361 | one counted failure keeps every window within twenty and the entry exact for what can still matter |
| LoginRuns.SweepRemembers | src/rate_limit.rs:416-424 | a sweep forgets only addresses whose failures share no window with a later one |
| LoginRuns.RunRemembers | src/rate_limit.rs:290-363 | the same along every run without reset of the address map, failures recorded under a lock and halves of failures included |
| LoginRuns.SprayBound | src/rate_limit.rs:163-169 | over every run every half-open window of five minutes holds at most twenty counted failures of an address, logins at the same time and interleaved halves of failures included |
| LoginRuns.CheckedSprayBound | src/rate_limit.rs:241-363 | where each login checks and records without another in between, at most twenty recorded failures |
| LoginRuns.FullWindowLocks | src/rate_limit.rs:354-361 | the counted failure that fills a window locks the address for every username for five minutes, and no sweep lifts it |
| LoginRuns.LockMeansTwenty | src/rate_limit.rs:341-361 | no address is locked for less: a failure that locks it is the last of twenty counted ones of the last five minutes |
| LoginLockouts.LockoutsDouble | src/rate_limit.rs:393-400 | lockouts start at 30 seconds, double, stay at 900, and never shrink |
| LoginLockouts.CountKeepsPair | src/rate_limit.rs:317-327 | the counters of a pair are the quotient and remainder of its counted failures by five, and the failures span the lockouts |
| LoginLockouts.FailureForgetsExactly | src/rate_limit.rs:299-311 | a failure forgets another pair exactly if its own is new, the map full, and the map reset or that pair unlocked and idle for fifteen minutes |
| LoginLockouts.EntryGoesExactly | src/rate_limit.rs:290-374 | an entry goes exactly by its success or by such a failure |
| LoginLockouts.EscalationIsForgotten | src/rate_limit.rs:407-414 | another pair's failure shortens the next lockout exactly when it forgets a pair that was locked before |
| LoginLockouts.SweepForgetsALockout | src/rate_limit.rs:407-414 | a full map in which a newcomer's failure halves the next lockout of a pair |
| LoginLockouts.FullMapIsReached | src/rate_limit.rs:290-363 | that map is reached from an empty throttle by 10,004 failures |
| LoginLockouts.RunKeepsPair | src/rate_limit.rs:290-328 | counters and spans along every run that does not take the entry away |
| LoginLockouts.PairLockoutBound | src/rate_limit.rs:290-328 | N counted failures of one pair span at least the first (N-1)/5 lockouts together, over every run that does not take the entry away; failures recorded under a lock are allowed and do not count |
| LoginLockouts.CheckedPairLockoutBound | src/rate_limit.rs:241-328 | where each login checks and records without another in between, all recorded failures span them |
| LoginLockouts.CountPaces | src/rate_limit.rs:317-327 | a counted failure keeps the pace of thirty seconds for every five failures, forgotten ones included |
| LoginLockouts.SweptPairLockoutBound | src/rate_limit.rs:290-328 | across any number of sweeps, N counted failures span at least (N-1)/5 times thirty seconds, as long as the pair never succeeds and the map is not reset |
| LoginAnswers.RemainingCountsDown | src/rate_limit.rs:241-328 | the attempts announced by the check are exact: each failure takes one, the last one locks for the next lockout |
| LoginAnswers.SuccessForgivesThePair | src/rate_limit.rs:366-374 | a success gives all attempts back but leaves the address lock |
| LoginAnswers.KeysFoldCase | src/rate_limit.rs:241-242 | two logins are of one pair exactly if they share the address and the name, up to ASCII case |
| LoginAnswers.UsernamesFoldCase | src/rate_limit.rs:241-374 | check, failure and success do the same for every spelling of a name |
| LoginAnswers.OtherNamesStandApart | src/rate_limit.rs:290-374 | names that differ beyond case, and other addresses, keep their entries unless they are forgotten |
| LoginAnswers.CheckAnswers | src/rate_limit.rs:241-282 | rejected exactly while a lock runs, the address's before the pair's, with the whole seconds left of it; else five attempts less the counted failures |
| LoginAnswers.PairsSwept | src/rate_limit.rs:407-414 | a sweep keeps exactly the pairs locked or seen in fifteen minutes, and the map is reset exactly if those are 10,000 |
| LoginAnswers.SpraysSwept | src/rate_limit.rs:416-424 | a sweep keeps exactly the addresses locked or failing in five minutes, and the map is reset exactly if those are 10,000 |
| LoginAnswers.OthersUnlockNobody | src/rate_limit.rs:290-363 | without a reset, a failure of another pair, its sweeps included, lifts nobody's lock |
| LoginAnswers.HintOutlastsLock | src/rate_limit.rs:402-405 | waiting for the hint outlasts the lock exactly if at most one second or whole seconds were left |
| LoginAnswers.HintMayBeShort | src/rate_limit.rs:402-405 | half a second over one second: the hint is too short |
| RefreshTokens.RefreshTokenRepository.SaveRefreshToken | src/db.rs:580-632 | a free hash gets a new row, in the given family or as the root of its own; a taken hash is refused and changes nothing |
| RefreshTokens.RefreshTokenRepository.RotateRefreshToken | src/db.rs:647-662 | marks the row exactly if it is neither rotated nor revoked, and says so |
| RefreshTokens.RefreshTokenRepository.RevokeRefreshTokenFamily | src/db.rs:664-679 | marks the unrevoked rows of the family; every other row, and every other column, stays |
| RefreshTokens.RefreshTokenRepository.RevokeAllRefreshTokens | src/db.rs:681-696 | marks the unrevoked rows of the user; every other row, and every other column, stays |
| RefreshTokens.RefreshTokenRepository.DeleteExpiredRefreshTokens | src/db.rs:698-711 | deletes and counts exactly the expired and revoked rows |
| RefreshTokens.RevocationsInRows | src/db.rs:664-696 | row by row: what the two revocations mark, and that they spare every row of another family or user |
| RefreshTokens.DeletionsInRows | src/db.rs:698-711 | row by row: what a pruning and the deletion of an account take, and that they spare the rest |
| TokenProtocol.StepIsSafe | src/db.rs:580-711 | every step of every worker keeps at most one live token or grant in a family |
| TokenProtocol.RefreshIsSafe | src/routes/auth.rs:547-676 | so does the refresh handler run as a whole, on each of its ways |
| TokenProtocol.RefusedRefresh | src/routes/auth.rs:556-594 | an unknown, a revoked, or an expired unused token changes nothing but the pruning |
| TokenProtocol.ReplayedRefresh | src/routes/auth.rs:575-591 | a rotated token revokes the unrevoked rows of its family, and no others |
| TokenProtocol.GrantedRefresh | src/routes/auth.rs:596-648 | a live token is retired and its successor saved in its family for its user; if the user is gone, the family dies instead |
| TokenProtocol.RunsAreSafe | src/db.rs:580-711 | so does every interleaving |
| TokenProtocol.OneTokenPerFamily | README.md:834-840 | in every reachable state a family has at most one token neither rotated nor revoked, unsaved successors included |
| TokenProtocol.RunsKeepMarks | src/db.rs:647-696 | rotated_at and revoked_at never change once set, and ids are never used again |
| TokenProtocol.RotatesAtMostOnce | src/db.rs:647-662 | in every run each token rotates successfully at most once |
| TokenFamilies.DeadStaysDead | src/db.rs:664-679 | a family without live token and without grant stays so in every run |
| TokenFamilies.RevocationIsFinal | src/db.rs:664-679 | a revocation is final in every later interleaving exactly when no grant of the family is open |
| TokenFamilies.RevocationSparesOthers | src/db.rs:664-679 | a revocation ends every token of the family and none of any other |
| TokenFamilies.LateSaveOutlivesRevocation | src/db.rs:580-679 | login, rotation, revocation, and the late save of the successor: the revoked family has a redeemable token |
| TokenFamilies.RevokedFamiliesStayDead | README.md:841-843 | with a rotation and its save as one step, a revoked family never has a redeemable token again |
| TokenFamilies.RetiredRowsSurvive | src/db.rs:698-711 | no step but the deletion of its account removes a rotated, unrevoked row |
| TokenFamilies.RetiredUntilRevoked | src/db.rs:698-711 | the same along every run, split or not: the row is there until it is revoked |
| TokenFamilies.RunsAreDefended | src/db.rs:580-711 | along atomic runs everything ever issued in a live family is stored, unrevoked, for one user |
| TokenFamilies.LiveFamiliesKeepTheirHistory | src/db.rs:698-711 | while a family has a redeemable token, every other token ever issued in it is stored and retired |
| TokenFamilies.ReplayKillsTheFamily | README.md:838-840 | presenting any earlier token of a live session kills the family, in every later state |
| TokenUsers.StepKeepsOut | src/db.rs:580-711 | no step of any worker gives an old session of a logged out user a redeemable token |
| TokenUsers.LogoutEverywhereIsFinal | src/routes/auth.rs:790-808 | revoking all tokens of a user ends every session begun before it, in every later interleaving, exactly when no grant of the user is open |
| TokenUsers.LogoutSparesOthers | src/db.rs:681-696 | it ends every token of the user and none of anybody else |
| PageHistory.PageRepository.RecordRevision | src/db.rs:1347-1388 | appends the snapshot under the next number |
| PageHistory.MaxNumberIsMax | src/db.rs:1354-1356 | the largest revision number, zero if there is none |
| PageHistory.PageRepository.PruneRevisions | src/db.rs:1394-1413 | drops the numbers up to the floor, none under cap zero |
| PageHistory.PageRepository.CreatePage | src/db.rs:1418-1506 | the page as the form says and its first revision, or an error that changes nothing, with the exact condition for each |
| PageHistory.PageRepository.UpdatePage | src/db.rs:1675-1756 | the page holds the form's fields, its revision and the pruning come with it, or nothing changes at all |
| PageHistory.PageRepository.DeletePage | src/db.rs:1758-1770 | the page and its history go, its children move to the top level |
| PageHistory.CreateTakesTheForm | src/db.rs:1418-1506 | a new page and its first revision hold every field of the form; refused exactly for an unknown organization or parent or a slug taken in the organization |
| PageHistory.EditTakesTheForm | src/db.rs:1675-1756 | an edited page and its revision hold every field of the form, the slug only if it has one; nothing else changes but the time; refused, or not found, exactly when |
| PageHistory.StoredAfterDelete | src/db.rs:1403-1411 | pruning one page leaves its higher numbers and every other page's rows, in order |
| HistoryRuns.RecordKeepsNewest | src/db.rs:1347-1413 | a save leaves the newest rows of its page, up to the cap, and all rows of others |
| HistoryRuns.StepIsFaithful | src/db.rs:1418-1770 | every create, edit, delete and account deletion keeps the stored rows the newest part of the log of saves |
| HistoryRuns.HistoryIsTheNewestSaves | src/db.rs:1347-1413 | over every run, caps changing: stored revisions are a contiguous range ending at the number of saves, each the save of its number in the log, the newest equal to the page exactly if its parent still exists |
| HistoryRuns.DeletedParentLeavesNoRevision | src/db.rs:1758-1770 | any two pages, one below the other: deleting the first leaves the second's only revision naming a parent the page no longer has |
| HistoryRuns.OnlyPagesHaveHistory | src/db.rs:1758-1770 | exactly the pages that exist have revisions |
| HistoryRuns.NumbersAreNeverReused | src/db.rs:1354-1362 | a save takes one more than the number of all earlier saves of the page, pruned ones included |
| HistoryRuns.LogOnlyGrows | migrations/0008_page_history.sql:53-55 | the log keeps every save as it was made, and clears its author exactly if the run deletes the account |
| HistoryRuns.RetainedSnapshotsNeverChange | src/db.rs:1347-1413 | a snapshot still stored later is what it was, without its editor exactly if the editor's account was deleted |
| HistoryRuns.FixedCapCount | src/db.rs:1390-1413 | under one cap the count is min(saves, cap); cap zero keeps all |
| HistoryRuns.SaveObeysItsCap | src/db.rs:1390-1413 | under changing caps each save leaves one row more or its cap |
| HistoryRuns.PagesStayConsistent | src/db.rs:1418-1770 | over every run slugs stay unique within an organization and every parent is a page |
| HistoryRuns.OtherPagesStand | src/db.rs:1418-1770 | a page that no event of a run names, itself or through its parent, keeps its fields and its whole history; creator and editors are cleared exactly if their accounts were deleted |
| PageTree.Ancestors | src/db.rs:1794-1832 | the loop answers the specified chain on every parent graph |
| PageTree.AncestorsAreBounded | src/db.rs:1794-1832 | on every graph, cyclic or not: at most 127 entries, never the page itself |
| PageTree.AncestorsAreNearest | src/db.rs:1794-1832 | on a forest: the nearest ancestors, outermost first, all of them or 127 |
| PageTree.ChainMembers | src/db.rs:1794-1832 | on a forest the chain holds exactly the pages 1 to 127 levels up |
| PageTree.MoveKeepsForest | README-CMS.md:41-47 | a move keeps the forest exactly when the new parent is neither the page nor below it |
| PageTree.AllowedMoveIsSafe | src/routes/cms.rs:1410-1459 | a move the guard allows keeps the forest exactly when the page is not more than 127 levels above the new parent |
| PageTree.RefusedMovesWouldLoop | src/routes/cms.rs:1410-1459 | on a forest the guard refuses no harmless move |
| PageTree.DeepMoveLoops | src/db.rs:1297-1300 | 129 pages in a line: the guard lets the top move under the bottom, which makes a cycle |
| PageTree.EditsKeepForest | README-CMS.md:41-50 | over every run of checked edits under pages that are not too deep, the tree stays a forest |
| Domains.DomainTable.Claim | src/db.rs:3545-3563 | the upsert: an existing row keeps its id, age and place, a new one is added last; the id counter moves either way |
| Domains.DomainTable.ClaimHosts | src/db.rs:3537-3563 | the first loop over the configured names |
| Domains.DomainTable.PruneConfigured | src/db.rs:3565-3580 | the second loop leaves the rows it must keep, in order |
| Domains.DomainTable.SeedDomains | src/db.rs:3536-3581 | both loops, from table to table |
| Domains.SeededTable | src/db.rs:3536-3581 | for every name, the row it has after seeding, with its old id and age where it had one |
| Domains.SeedingReconciles | src/db.rs:3515-3531 | config rows are exactly the configured non-empty names, all of the CMS organization; hand-made rows not named are untouched, and no others appear |
| Domains.SeedingTwiceIsSeedingOnce | src/db.rs:3515-3531 | seeding again, at any later time, leaves every row as it is, ids, ages and order included |
| Domains.SeedingTakesIds | migrations/0010_domains.sql:40-46 | every boot moves the id counter by the number of non-empty names listed |
| Domains.SeedingInOrder | src/db.rs:3536-3581 | after a boot the surviving old rows stand in their order, claimed where they are named, and the added ones behind them |
| Domains.SeedingWithoutTheOrganization | src/db.rs:3542-3544 | without the CMS organization the seeder only prunes |
| Text.SpaceCharacters | src/db.rs:3510 | the white space that trimming removes, spelled out, for Rust and for JavaScript |
| Text.TrimIs | src/db.rs:3510 | trimming removes exactly the white space at the ends |
| Domains.NormalizedIsCanonical | src/db.rs:3509-3513 | canonicalising twice is canonicalising once, exactly unless one dot less still ends in a dot or white space |
| Domains.DottedNameIsNotCanonical | src/db.rs:3509-3513 | a name with two trailing dots takes two rounds |
| VirtualHosts.LoadedBinding | src/db.rs:3606-3624 | loading answers exactly the rows of existing organizations, canonicalised |
| VirtualHosts.LoadedIsIndexed | src/db.rs:3606-3624 | canonical, unique rows load as an index |
| VirtualHosts.FirstMatchIsLookup | src/vhosts.rs:120-143 | over an index, the first match is the map lookup of the lowercased name |
| VirtualHosts.RowOrderNeverMatters | src/vhosts.rs:120-143 | every order of an index gives every host the same class |
| VirtualHosts.UnclearHostsAreMain | src/vhosts.rs:178-193 | the URI's host counts first, then the one header; none, several or an unreadable one mean the main host |
| VirtualHosts.ClassTellsTheOrganization | src/vhosts.rs:136-142 | the class tells the organization of the first match: `cms`, `main` or none, or a tenant's |
| VirtualHosts.HostNameFoldsCase | src/vhosts.rs:165-176 | extracting the name commutes with lowercasing, for every string |
| VirtualHosts.LetterCaseNeverMatters | src/vhosts.rs:120-176 | hosts equal up to ASCII case have the same class, for all bindings |
| VirtualHosts.HostNameBeforePort | src/vhosts.rs:165-176 | in front of the last colon of a host without brackets only leading white space is dropped |
| VirtualHosts.BracketedName | src/vhosts.rs:165-176 | a bracketed literal keeps its brackets, and what follows is dropped |
| VirtualHosts.PortsNeverMatter | src/vhosts.rs:165-176 | a port leaves the name, and the class under all bindings, unchanged exactly if the host does not end in white space or is all white space |
| VirtualHosts.PortShieldsWhiteSpace | src/vhosts.rs:165-176 | a host ending in a blank whose class an appended port changes |
| VirtualHosts.FirstMatchIsFirstRow | src/db.rs:3606-3624 | whatever names are stored, the first match is the first row, by id, of an existing organization that canonicalises to the name |
| VirtualHosts.ClassifyingIsFirstRow | src/vhosts.rs:120-143 | so every host is served from that row, or is the main host |
| VirtualHosts.ClassifyingIsTableLookup | src/vhosts.rs:120-143 | where stored names are canonical, that is looking the name up in the domains table |
| VirtualHosts.ServedAfterBoot | src/db.rs:3583-3604 | after seeding and loading, for all stored and listed names: a host is served from the first surviving old row that loads under its name; without one it is the CMS if its name is listed, else the main host |
| VirtualHosts.ListedNameIsTheCms | src/db.rs:3515-3520 | a listed name is the CMS exactly if the first old row that loads under it, if any, belongs to the CMS once names are claimed |
| VirtualHosts.HandWrittenNameShadows | src/db.rs:3515-3520 | a tenant's row in another spelling keeps a listed name |
| VirtualHosts.CanonicalNamesServed | src/db.rs:3515-3531 | where stored and listed names are canonical: a configured name is the CMS, another name is served from its hand-made row, any other is the main host |
| Calendar.CivilFromDaysIsValid | src/util.rs:195-211 | every integer gives a valid date whose day count it is |
| Calendar.YearOfEraIsTheContainingYear | src/util.rs:199-200 | the correction terms find the year that contains the day, for all days of an era |
| Calendar.DaysFromCivilCountsLeapDays | src/util.rs:218-227 | the era arithmetic counts 365 days a year and the leap days so far, negative years included |
| Calendar.NextDayAddsOne | src/util.rs:164-174 | the next calendar day has the next day count |
| Calendar.WalkCounts | src/util.rs:218-227 | the day count is the number of single-day steps from 1970-01-01, backwards too |
| Calendar.DaysFromCivilIsMonotone | src/util.rs:218-227 | later valid dates have larger day counts |
| Calendar.CivilFromDaysInvertsDaysFromCivil | src/util.rs:213-227 | the two conversions invert each other on all valid dates of all years |
| Calendar.ClosedFormIsTheCalendar | src/util.rs:193-211 | for every integer the closed form is the date reached by stepping day by day |
| Text.ParsesExactlyIntegers | src/util.rs:108-121 | the integer parser accepts exactly an optional sign, zeros and the digits of a value in range |
| DatetimeLocal.TakeDate | src/util.rs:107-113 | the first half of the iterator loop: the date pieces |
| DatetimeLocal.TakeTime | src/util.rs:115-124 | the second half: the time pieces, seconds optional |
| DatetimeLocal.TakeFields | src/util.rs:104-124 | both halves together: the fields before they are checked |
| DatetimeLocal.ParseDatetimeLocal | src/util.rs:104-146 | the iterator code computes the specified parse |
| DatetimeLocal.ParsesExactlyTheCalendar | src/util.rs:97-146 | accepts exactly the spellings of valid dates of 1970 to 9999 and valid times, and answers their instant |
| DatetimeLocal.FormatParsesBack | src/util.rs:148-160 | parsing the formatted value rounds down to the minute, for all instants of 1970 to 9999 |
| DatetimeLocal.SecondsParseBack | src/util.rs:104-146 | with its seconds written behind it, a formatted value parses back to the very instant |
| DatetimeLocal.InstantsTellFieldsApart | src/util.rs:126-145 | different fields of the calendar are different instants, to the second |
| DatetimeLocal.ReparsingIsStable | src/util.rs:104-160 | an accepted value is in range and its formatted form is a fixed point |
| DatetimeLocal.FormatHasBrowserShape | src/util.rs:151-160 | sixteen characters in the shape browsers send |
| TemplateCompiler.AppendHtml | sidecar/engine.js:144-171 | markup between tags becomes one output statement, none if empty |
| TemplateCompiler.AppendCode | sidecar/engine.js:144-171 | the code of a tag is appended as it is |
| TemplateCompiler.EmitTag | sidecar/engine.js:154-164 | one round of the cursor loop emits the markup and the code of a tag and moves behind it |
| TemplateCompiler.EmitRewritten | sidecar/engine.js:144-171 | the cursor loop emits the pieces of the rewritten template in order |
| TemplateCompiler.Compile | sidecar/engine.js:130-191 | the program is the given frame around the emitted pieces of the rewritten template |
| TemplateCompiler.FirstTagIsLeftmostMatch | sidecar/engine.js:130-191 | searching the first opener finds the left-most lazy match, and finds one whenever one exists |
| TemplateCompiler.TagIsWritten | sidecar/engine.js:130-191 | a found tag and its surroundings are the template again |
| TemplateCompiler.WrittenTagIsFirst | sidecar/engine.js:130-191 | a written tag is found where it was written |
| TemplateMeaning.TwoPassesAgree | sidecar/engine.js:130-191 | for every template the two passes give the pieces of program of the one-pass reading exactly if no code block contains an echo opener |
| TemplateMeaning.ProgramsAgree | sidecar/engine.js:130-191 | and so for the text of the programs, however strings are quoted |
| TemplateMeaning.EchoInCodeDisagrees | sidecar/engine.js:130-191 | every block of code with an echo opener in it is a template on which the passes part, with what each makes of it |
| TemplateMeaning.SmallestDisagreement | sidecar/engine.js:130-191 | a template of ten characters on which they part |
| TemplateMeaning.ShorterTemplatesAgree | sidecar/engine.js:130-191 | no template shorter than that is one |
| TemplateMeaning.PiecesLoseNothing | sidecar/engine.js:144-171 | the second pass's pieces concatenate back to the rewritten template, whatever it is |
| TemplateMeaning.OnePassLosesNothing | sidecar/engine.js:130-191 | printing the one-pass reading of any template gives the template |
| TemplateMeaning.PrintedSegmentsReadBack | sidecar/engine.js:130-191 | well-formed segments are read back exactly, in order |
| TemplateMeaning.PrintedSegmentsCompile | sidecar/engine.js:130-191 | compiling printed segments yields exactly those segments, exactly if no code holds an echo opener |
| TemplateMeaning.EchoIsEscaped | sidecar/engine.js:145-148 | written out: an echo tag becomes the output of its expression through the escaper, without the white space around it |
| TemplateMeaning.CodeIsTaken | sidecar/engine.js:160-162 | a block of code becomes its code and a line feed |
| TemplateMeaning.MarkupIsQuoted | sidecar/engine.js:166-170 | markup becomes the output of its quoted text |
| TemplateMeaning.RewriteManglesScript | sidecar/engine.js:130-142 | what the first pass does to a code block that holds an echo opener |
| HtmlEscape.ChainIsSubstitution | src/error.rs:459-467 | seven sequential replacements are one substitution per character |
| HtmlEscape.EscapersAgree | sidecar/engine.js:265-275 | on every text the JavaScript chain, over UTF-16 code units, answers the encoding of what the Rust chain answers |
| HtmlEscape.NothingUnsafeSurvives | src/error.rs:452-467 | none of the six dangerous characters is left |
| HtmlEscape.EscapeIsInjective | src/error.rs:459-467 | unescaping undoes the escape, so different texts stay different |
| Proxy.ParseCidr | src/proxy.rs:40-72 | only normalised networks with a fitting prefix are answered |
| Proxy.NormalizedHasNoHostBits | src/proxy.rs:74-79 | normalised means no host bit set |
| Proxy.ParsesWrittenBlocks | src/proxy.rs:32-72 | a written block is accepted exactly if the prefix fits and no host bit is set |
| Proxy.ParsesBareAddresses | src/proxy.rs:57-64 | a bare address is the network of itself only |
| Proxy.MaskKeepsHigh | src/proxy.rs:82-104 | the shifted mask clears exactly the host bits, prefix zero included |
| Proxy.ContainsIsInterval | src/proxy.rs:107-112 | a network contains exactly the 2^(w-p) addresses of its family from its base on |
| Proxy.ContainsIsSharedPrefix | src/proxy.rs:107-112 | equivalently those sharing its top p bits |
| Proxy.NestedOrDisjoint | src/proxy.rs:107-112 | two accepted networks of one family are nested or disjoint |
| Proxy.WidthsAreExact | src/proxy.rs:82-104 | 32 and 128 bits |
| Proxy.CollectCandidates | src/proxy.rs:138-145 | the nested loops collect the parsable entries of all values in order |
| Proxy.ResolveClientIp | src/proxy.rs:131-157 | the loops and the backward scan compute the specified answer |
| Proxy.ResolvedAddress | src/proxy.rs:121-157 | the whole answer: the peer unless it is trusted and forwards an address, then the right-most untrusted entry or else the left-most |
| Proxy.TrustedIsInSomeInterval | src/proxy.rs:132 | trusted exactly if some network of the list has the address in its interval |
| Proxy.EntriesAreRead | src/proxy.rs:138-145 | a header value is read entry by entry between its commas |
| Proxy.EntriesAreTrimmed | src/proxy.rs:141 | an entry is read without the white space around it, and skipped if it is no address |
| Proxy.ChosenEntry | src/proxy.rs:121-157 | the answer has only trusted hops to its right and is untrusted unless left-most |
| Proxy.ForgedEntriesAreIgnored | src/proxy.rs:121-157 | entries put in front of any header never change the answer, exactly if the peer or a later entry is untrusted |
| Proxy.CommaOrNewValue | src/proxy.rs:138-145 | a comma and a further header value are read alike |
| EnvExpansion.ExpandEnv | src/external_api.rs:224-247 | the loop computes the specified expansion, errors included |
| EnvExpansion.NameCharacters | src/external_api.rs:232-237 | the characters of a name, spelled out |
| EnvExpansion.ExpandsReferences | src/external_api.rs:224-247 | expansion works through resolvable references and goes on behind them, never inside a value |
| EnvExpansion.ExpandsExactlyTheGrammar | src/external_api.rs:218-247 | succeeds exactly on literals free of the opener alternating with well-named set variables, with their concatenation |
| EnvExpansion.FailsExactlyAtTheFirstBadReference | src/external_api.rs:224-247 | fails exactly when the first unresolvable reference fails, for its reason |

## Left out

- HTTP, TLS, logging, metrics, process supervision and configuration loading: input, output and library wiring.
- Password hashing, JSON web tokens, digests and random values: opaque libraries.
- IP address syntax: the address parser is a parameter of the CIDR parser and of the client address resolution.
- Execution of template code, its helper functions and the cache: code and expressions are opaque text. Only the default tags of the compiler are modelled.
- Full text search, migrations, menus, media and Markdown: they would add easy members or rest on crates that are not part of this model.
- SQL engine details: statements are atomic steps on tables. A save by an account that does not exist is not refused.
- Fields of a token row that no property mentions (address, user agent, creation time).
- Concurrent page edits: an update reads the current slug outside its transaction, so saves are modelled one after the other.
- Requests of several organizations: the page tree is that of one organization.
- IPv6 zone and URI parsing: the host of a URI authority is a parameter of the host classification.
- Machine integers: day counts, ids, revision numbers and lockout counters are unbounded; the Retry-After hint keeps its 64-bit bound.
- Calendar.ClosedFormIsTheCalendar: over unbounded integers; the 64-bit overflow of instants near the end of the range is not modelled.
- RateLimiter.AdmissionBound: between resets of the full map, which void all history, and over real arithmetic.
- RateLimiter.RetryAfterSuffices: for a capacity of at least one token, which the configuration enforces, and a hint below the largest 64-bit value.
- LoginRuns.SprayBound: as long as the address map is not reset, and for instants that do not decrease.
- LoginRuns.FullWindowLocks: as long as the address map is not reset.
- LoginLockouts.PairLockoutBound: as long as no success, sweep or reset takes the entry away; EntryGoesExactly says when one does.
- LoginLockouts.SweptPairLockoutBound: as long as the pair never succeeds and the pair map is not reset.
- LoginThrottle.LoginThrottle.RecordFailureAt: written as its two halves, CountPair and CountAddress, that the source has as two blocks of one function.
- TokenFamilies.RevokedFamiliesStayDead: for refreshes that rotate and save as one step; RevocationIsFinal has the exact condition for split ones.
- TokenFamilies.ReplayKillsTheFamily: for refreshes that rotate and save as one step.
- TokenProtocol.RefreshIsSafe: the best-effort pruning in the handler is a step of its own, which may fail to happen.
- PageTree.EditsKeepForest: for moves under pages with at most 127 pages above them; DeepMoveLoops shows why.
- VirtualHosts.CanonicalNamesServed: for stored and configured names that are canonical and a table without an unnamed config row; ServedAfterBoot has the general statement.
