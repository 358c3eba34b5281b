# Veotrex API: verified models of its protocols

Veotrex is a childcare operations service: children are checked in and out of rooms, released to authorized
contacts, counted against staffing policies; cameras report anonymous room transitions from edge nodes, which
also broker short video sessions; provider credentials are kept sealed. The rules that keep this consistent are
spread over small pure deciders, transactional services and a few SQL functions. This project restates those
rules in Dafny and proves what they are for, over all inputs and all runs.

The models are, by file:

- `Attendance`, `AttendanceWriters`: the per-child event stream, its three planners, and any number of writers that
  read, plan and commit with nothing but the (child, sequence) key between them.
- `PickupDecision`, `CareProtocol`, `CareInvariants`, `CareRuns`, `CareService`: rooms, profiles, contacts, links,
  check-outs and releases as one transition system, and the service object whose methods are its steps.
- `AttendanceEffects`, `LinkEffects`: what each accepted call does to a child, a link, the decision and the count,
  and which calls are accepted.
- `ChildCount`, `ChildCountLaws`, `Presence`: the head count derived from the stream and how long it holds.
- `RatioPolicy`, `RatioPolicyLaws`, `RatioPolicyEffects`, `PolicyService`, `RatioEvaluation`: policy periods kept
  apart by the writes, the choice of the policy in force, and the evaluation of a room against it.
- `ManualPresence`, `ManualPresenceLaws`, `ManualPresenceEffects`, `PresenceService`: operator head counts,
  superseded, revoked and expired for good.
- `LeaseModel`, `LeaseInvariants`, `LeaseRuns`, `LeaseLife`, `LeaseBroker`, `WhepRegistry`: the registry of video
  session leases, and a broker that opens one session while other sessions come and go.
- `Text`, `VaultCodec`, `VaultModel`, `VaultAccess`, `CredentialVault`: the sealed credential table as a refinement
  of a plain map, and who may read, rotate and delete in it.
- `RoomIngest`, `RoomIngestLaws`, `RuntimeConfig`: exactly-once ingest of room transitions, and the version of the
  configuration that a node runs.
- `FailureLogLimiter`, `WebhookInbox`, `WebhookInboxLaws`, `WebhookTable`: a fixed-window limiter and the webhook
  work queue.
- `FaceVectors`, `Recognition`, `RecognitionLaws`, `EdgeToken`: the recognition decision and the edge credential.
- `Lists`: lookup by id, removal and stable sorting, shared by the others.

Conventions. Times are integers in microseconds on one UTC line; ids are naturals, of which only equality and the
order of the canonical text are used. A database transaction is one atomic step, except in `AttendanceWriters`,
where reading and committing are separate steps of different writers, and in `WebhookInbox`, where a claim may find
rows locked by others. In `LeaseBroker` any other registry calls may run while an attempt waits, provided that they
settle their own reservations and that drawn lease ids do not repeat. Values that the source draws at random or
reads from a clock are parameters. Where the source updates an object or rows in place there is a class whose
methods are proved against a function of the old state and keep the invariant of its runs, where there is one; what
the source promises is then proved about that function, for every run from the empty state. A refused transaction
leaves its state unchanged.

Where code and promise part, the code is modelled and the exact condition proved:

- Release options are promised to list who may collect a child now. A contact is listed exactly when releasing would
  succeed, except when the clock stands before the start of the stay (`CareRuns.OfferedIffReleasable`,
  `CareRuns.OfferedYetRefused`).
- While nothing is recorded no child joins those counted in a room exactly when no active child's stay there lies
  beyond the tolerated clock skew (`ChildCountLaws.NobodyJoinsIff`, `ChildCountLaws.SkewedEventRaisesCount`).
- The newest head count supersedes earlier ones exactly when it is also the latest by the stored order; a clock that
  steps back makes it count for nothing (`ManualPresenceLaws.SubmissionTakesOverIff`,
  `ManualPresenceLaws.BackwardClockKeepsTheOldReport`). That lost authority never returns needs no such condition.
- Decoding a plaintext and encoding it again gives it back only within the size and separator limits
  (`VaultCodec.EncodeUndoesDecode`, `VaultCodec.SecondSeparatorIsLost`).
- An envelope is bound to its owner, version and schema but not to the row's id (`VaultModel.MovedEnvelopeOpensIff`,
  `VaultModel.ExchangedEnvelopeOpens`).

## Model

| member | source | states |
|---|---|---|
| Attendance.LatestIsLast | apps/api/src/veotrex_api/child_attendance.py:217-253 | the highest-sequence event that the state is derived from is the last committed event of the child |
| Attendance.PlanIsLegal | apps/api/src/veotrex_api/child_attendance.py:292-406 | whatever a planner returns for the true current state is a legal continuation of the stream: a check-in ends with the child checked in to the requested room, a refresh is one row of the stay, a check-out closes the stay in that room |
| Attendance.LegalEventsArePlanned | apps/api/src/veotrex_api/child_attendance.py:292-406 | conversely every legal next event with a whole-second lease is exactly what one of the planners produces |
| Attendance.CommitKeepsSerial | apps/api/src/veotrex_api/child_roster_service.py:569-639 | rows planned from any earlier prefix of the stream that pass the unique key and the CHECKs keep every stream a serial history, and the prefix was the whole stream |
| Attendance.InsertKeepsSerial | apps/api/alembic/versions/0012_child_roster_attendance.py:149-199 | a multi-row insert of legal continuations of a prefix is admitted only as a continuation of the whole stream |
| Attendance.LockedCommitSucceeds | apps/api/src/veotrex_api/child_roster_service.py:560-606 | with the child's lock held, a clock not behind the last event and fresh row ids, the planned rows are always admitted |
| AttendanceWriters.CommitKeepsInv | apps/api/src/veotrex_api/child_roster_service.py:537-639 | one writer's commit from a possibly outdated reading keeps every stream serial and every other reading a prefix |
| AttendanceWriters.CommittedStreamsAreSerial | apps/api/src/veotrex_api/child_roster_service.py:537-639 | under any interleaving of reads and commits every child's rows form a serial history numbered 1 to n |
| AttendanceWriters.OnlyAnUpToDateReaderAppends | apps/api/src/veotrex_api/child_roster_store.py:48-70 | a commit appends rows only if the writer's reading is still the child's current state |
| AttendanceWriters.TableOnlyGrows | apps/api/alembic/versions/0012_child_roster_attendance.py:127-200 | every earlier state of the event table is a prefix of every later one |
| AttendanceEffects.CheckInIff | apps/api/src/veotrex_api/child_attendance.py:298-350 | a check-in is accepted exactly for an active child and room of one facility, a lease in range, no unlapsed stay here, and a clock not behind a stay elsewhere |
| AttendanceEffects.CheckInTakesEffect | apps/api/src/veotrex_api/child_attendance.py:298-350 | afterwards the child is in the requested room since now until now plus the lease, a stay in another room was closed at the same moment, and nobody else is touched |
| AttendanceEffects.CheckInRefusals | apps/api/src/veotrex_api/child_attendance.py:288-350 | each refused check-in names its cause |
| AttendanceEffects.CheckOutIff | apps/api/src/veotrex_api/child_attendance.py:353-372 | a check-out is accepted exactly when the child is not present elsewhere and the clock not behind its stay here |
| AttendanceEffects.CheckOutTakesEffect | apps/api/src/veotrex_api/child_attendance.py:353-372 | afterwards the child is in no room if it was in this one, and otherwise nothing changed |
| AttendanceEffects.CheckOutRefusals | apps/api/src/veotrex_api/child_attendance.py:353-372 | each refused check-out names its cause |
| AttendanceEffects.RefreshIff | apps/api/src/veotrex_api/child_attendance.py:375-406 | a refresh is accepted exactly for an unlapsed stay of an active child in this active room |
| AttendanceEffects.RefreshTakesEffect | apps/api/src/veotrex_api/child_attendance.py:375-406 | afterwards the stay has the same room and start and runs until now plus the new lease |
| AttendanceEffects.RefreshRefusals | apps/api/src/veotrex_api/child_attendance.py:375-406 | each refused refresh names its cause |
| AttendanceEffects.CheckedInIsCounted | apps/api/src/veotrex_api/child_attendance.py:468-515 | a checked-in child is present in that room until its lease ends and stale from then on, in no other room, and counted while present and active |
| AttendanceEffects.CheckedOutIsNotCounted | apps/api/src/veotrex_api/child_attendance.py:468-515 | a checked-out child is neither present nor stale in that room |
| PickupDecision.AuthorizedIff | apps/api/src/veotrex_api/guardian_release.py:234-297 | the decision is AUTHORIZED exactly when both parties are active in the facility, all links of the pair are of it, and the pair has one ACTIVE link, pickup-authorized, with the instant in its half-open period; that link is returned |
| PickupDecision.SingleActiveIsSole | apps/api/src/veotrex_api/guardian_release.py:248-297 | one filtered ACTIVE link means one row of the whole table is the pair's only ACTIVE one |
| CareProtocol.AuthorizeRelease | apps/api/src/veotrex_api/guardian_service.py:987-1036 | an authorized release always concerns a stay in the room it is asked for |
| CareInvariants.StepKeepsInv | apps/api/src/veotrex_api/guardian_service.py:535-1099 | every operation keeps all stored rows well formed, streams serial, at most one ACTIVE link per pair, and each release bound to its own check-out |
| CareInvariants.ReleaseIsJustified | apps/api/src/veotrex_api/guardian_service.py:952-1099 | a release row names a link revision that was the pair's only ACTIVE link and granted pickup at that instant |
| CareRuns.EveryReleaseWasAuthorized | apps/api/src/veotrex_api/guardian_service.py:952-1099 | in every run each release row was written by a release operation with that call's own arguments, out of a state in which its link, at exactly the recorded revision, was the pair's only ACTIVE link, pickup-authorized, with released_at in its period, and names its own new CHECKED_OUT event |
| CareRuns.EachReleaseHasItsOwnCheckOut | apps/api/alembic/versions/0013_guardian_release.py:252-328 | no two releases share a check-out, and each is recorded by a check-out of that child, room, facility and time |
| CareRuns.ReleasesAreSeparatedByACheckIn | apps/api/src/veotrex_api/guardian_service.py:952-1099 | between two releases of one child there is a CHECKED_IN of that child |
| CareRuns.LinkTermsAreFixed | apps/api/src/veotrex_api/guardian_service.py:763-865 | over any run a link id keeps its child and contact, an equal (id, revision) pair names one row for ever, revisions never fall and INACTIVE is final |
| CareRuns.EveryStreamIsSerial | apps/api/src/veotrex_api/guardian_service.py:952-1099 | releases mixed with check-ins, refreshes and check-outs leave every stream a serial history |
| CareRuns.CheckOutIsAdmitted | apps/api/src/veotrex_api/guardian_service.py:1037-1075 | in a serial table the check-out of the open stay is admitted exactly when the clock is not before the stay's start |
| CareRuns.OfferedIffReleasable | apps/api/src/veotrex_api/guardian_service.py:868-1075 | in every reachable state a contact is offered and the clock is not before the stay's start exactly when the release at that moment succeeds |
| CareRuns.OfferedYetRefused | apps/api/src/veotrex_api/guardian_service.py:868-950 | a concrete run after which a contact is offered and the release is refused, the clock having stepped back |
| CareRuns.DecisionRestsOnTheSoleLink | apps/api/src/veotrex_api/guardian_release.py:248-297 | in every run the decision is never ambiguous, speaks of facilities exactly when a party is at another one, and for active parties is the verdict on the pair's sole ACTIVE link |
| CareRuns.RefusalNamesItsCause | apps/api/src/veotrex_api/guardian_release.py:234-297 | in every run each refusal names the first of: facility, child, contact, no link ever, none ACTIVE |
| LinkEffects.ActiveLinkDecides | apps/api/src/veotrex_api/guardian_release.py:248-297 | for active parties the ACTIVE link decides alone: no pickup, not started, over, or authorized |
| LinkEffects.CreateLinkIff | apps/api/src/veotrex_api/guardian_service.py:642-723 | a link is accepted exactly for unarchived parties of one facility, an uninverted period, no ACTIVE link of the pair, fewer than 20 of the child and a new id |
| LinkEffects.CreateTakesEffect | apps/api/src/veotrex_api/guardian_service.py:694-723 | the new link has exactly the requested pickup, period, relationship and note, starting now if no start is given |
| LinkEffects.EditIff | apps/api/src/veotrex_api/guardian_service.py:725-792 | an edit is accepted exactly for an ACTIVE link of unarchived parties whose new period is not inverted |
| LinkEffects.EditTakesEffect | apps/api/src/veotrex_api/guardian_service.py:763-818 | each field asked for has the requested value, each other one its old value, and no other link changes |
| LinkEffects.DeactivateTakesEffect | apps/api/src/veotrex_api/guardian_service.py:820-865 | the row is INACTIVE with all its terms, and no other link changes |
| LinkEffects.RevokedPickupIsRefused | apps/api/src/veotrex_api/guardian_service.py:763-1036 | over any run, once pickup was taken away by an edit or the link deactivated, the contact is neither offered nor given the child until a later edit or a new link grants it |
| LinkEffects.ActiveLinksAreBounded | apps/api/src/veotrex_api/guardian_service.py:679-686 | in every run no child has more than 20 ACTIVE links |
| AttendanceEffects.ReleaseTakesEffect | apps/api/src/veotrex_api/guardian_service.py:1037-1075 | a released child is in no room any more and one record was added |
| AttendanceEffects.ReleaseRefusals | apps/api/src/veotrex_api/guardian_service.py:987-1036 | each release refused before anything is written names its cause |
| CareRuns.ArchivedIsFinal | apps/api/src/veotrex_api/child_attendance.py:128-139 | over any run an ARCHIVED child or contact is the same row in every later state |
| CareRuns.NoReleaseOnceArchived | apps/api/src/veotrex_api/guardian_release.py:120-128 | no release written after a child or a contact was archived concerns that child or that contact |
| CareRuns.ArchivedOnlyLeave | apps/api/src/veotrex_api/child_roster_service.py:355-402 | every event recorded for a child after its archiving is a check-out |
| CareRuns.RosterTakesEffect | apps/api/src/veotrex_api/child_roster_service.py:243-402 | a room never changes its facility, and a new child or contact is ACTIVE at the facility it was added to |
| CareRuns.StatusTakesEffect | apps/api/src/veotrex_api/child_attendance.py:128-139 | a status is set exactly for a known party that is not ARCHIVED or stays so, and nothing else changes |
| CareService.GuardianService.Transition | apps/api/src/veotrex_api/child_roster_service.py:537-639 | reads, plans and appends as the step says, or leaves everything as it was; afterwards the child is in the room, still in it, or not in it |
| CareService.GuardianService.CreateLink | apps/api/src/veotrex_api/guardian_service.py:642-723 | appends an ACTIVE revision-1 link or names the first refusal, the one-ACTIVE-link rule among them |
| CareService.GuardianService.UpdateLink | apps/api/src/veotrex_api/guardian_service.py:725-818 | changes the row in place with one new revision exactly when some field differs, and the row then has every field that was asked for |
| CareService.GuardianService.EditRow | apps/api/src/veotrex_api/guardian_service.py:763-792 | the field-by-field assignments give every field that was asked for, keep the others, and report a change exactly when there is one |
| CareService.GuardianService.DeactivateLink | apps/api/src/veotrex_api/guardian_service.py:820-865 | an ACTIVE link becomes INACTIVE with one new revision, an INACTIVE one stays |
| CareService.GuardianService.ReleaseChild | apps/api/src/veotrex_api/guardian_service.py:952-1075 | check-out and release record are both written or nothing is, as the step says |
| CareService.GuardianService.Commit | apps/api/src/veotrex_api/guardian_service.py:1037-1099 | a clashing release record rolls back the inserted check-out |
| CareService.GuardianService.ReleaseOptions | apps/api/src/veotrex_api/guardian_service.py:868-950 | exactly one entry for every listed child and for no other, each with exactly the offered contacts and their sole ACTIVE link, and the other linked contacts with the reason |
| CareService.GuardianService.OptionsOf | apps/api/src/veotrex_api/guardian_service.py:892-943 | the loop over a child's linked contacts finds every candidate and every refusal once, and no other |
| ChildCount.ResolveChildCount | apps/api/src/veotrex_api/child_attendance.py:468-515 | the loop's counters are the sizes of the sets they stand for, each rostered child considered once, and valid_until is the earliest lease of the counted |
| ChildCount.SortKeepsFirst | apps/api/src/veotrex_api/child_attendance.py:488-491 | sorting the members by id keeps which of several rows of one child is used |
| ChildCount.ConsiderTallies | apps/api/src/veotrex_api/child_attendance.py:489-505 | one member's turn extends each tally to the set with that child |
| ChildCountLaws.CountWindow | apps/api/src/veotrex_api/child_attendance.py:439-453 | with no active child's stay in the room beyond the skew, re-resolving later gives the same count exactly before valid_until, a strictly smaller one from then on, and never a larger one |
| ChildCountLaws.NobodyJoinsIff | apps/api/src/veotrex_api/child_attendance.py:217-253 | from now on no child ever joins those counted exactly when no active child's stay in the room lies beyond the skew |
| ChildCountLaws.SkewedEventRaisesCount | apps/api/src/veotrex_api/child_attendance.py:217-253 | a concrete open stay beyond the skew whose count rises with time |
| ChildCountLaws.PresenceOutlivesLeaseByUnderASecond | apps/api/src/veotrex_api/classroom_ratio.py:106-155 | the derived presence count exists exactly for counts of at most 500, is fresh when made, and outlives valid_until by less than one second |
| ChildCountLaws.PresenceCarriesTheCount | apps/api/src/veotrex_api/classroom_ratio.py:106-155 | the derived count is the resolved one, of children, from attendance, observed at that moment |
| ChildCountLaws.IndexLookup | apps/api/src/veotrex_api/child_roster_store.py:87-113 | the one-row-per-child index gives every child's latest event |
| ChildCountLaws.IndexResolvesTheSame | apps/api/src/veotrex_api/child_roster_store.py:73-130 | resolving from the index is resolving from the full event table |
| ChildCountLaws.OrderIsImmaterial | apps/api/src/veotrex_api/child_attendance.py:468-515 | with unique keys neither order nor repetition of members and events changes the resolution |
| ChildCountLaws.ResolutionIsUnique | apps/api/src/veotrex_api/child_attendance.py:411-453 | a roster, a table, a room and a moment have one resolution |
| ChildCountLaws.PresentIsCountedOrInactive | apps/api/src/veotrex_api/child_attendance.py:498-502 | count plus present_inactive is present |
| ChildCountLaws.RoomsPartitionOpenStays | apps/api/src/veotrex_api/child_attendance.py:468-515 | over distinct rooms of a facility present plus stale sums to the children whose latest event is open in one of them, so no child is counted twice |
| RatioPolicy.OverlapIffCommonInstant | apps/api/src/veotrex_api/classroom_ratio.py:286-300 | validated periods overlap exactly when some instant lies in both |
| RatioPolicy.FindOverlap | apps/api/src/veotrex_api/classroom_ratio.py:325-336 | finds the first conflicting policy, and none exactly when there is none |
| RatioPolicy.First | apps/api/src/veotrex_api/classroom_ratio.py:321-322 | no policy of the list precedes the chosen one in the descending order by start, revision and id |
| RatioPolicy.SelectPolicy | apps/api/src/veotrex_api/classroom_ratio.py:312-322 | selects an applicable policy exactly when there is one |
| PolicyService.PolicyBook.CreatePolicy | apps/api/src/veotrex_api/classroom_service.py:852-895 | appends an ACTIVE revision-1 policy or names the first refusal and changes nothing |
| PolicyService.PolicyBook.UpdatePolicy | apps/api/src/veotrex_api/classroom_service.py:897-939 | changes the row in place with one new revision, or rolls the change back when it overlaps |
| PolicyService.PolicyBook.DeactivatePolicy | apps/api/src/veotrex_api/classroom_service.py:941-977 | an ACTIVE policy becomes INACTIVE with one new revision, an INACTIVE one stays |
| RatioPolicyLaws.StepKeepsInv | apps/api/src/veotrex_api/classroom_service.py:852-977 | every write keeps ACTIVE periods pairwise disjoint, ids distinct, terms valid and the limit of 100 |
| RatioPolicyLaws.OverlapRefusedIffClaimed | apps/api/src/veotrex_api/classroom_service.py:881-926 | in every run a well-formed write is refused for overlap exactly when some instant would belong to two ACTIVE policies |
| RatioPolicyLaws.SelectionIgnoresOrder | apps/api/src/veotrex_api/classroom_ratio.py:312-322 | for any rows with distinct ids the selection and its ambiguity flag do not depend on the reading order |
| RatioPolicyLaws.SelectionIsNeverAmbiguous | apps/api/src/veotrex_api/classroom_ratio.py:303-322 | in every run at every instant the selection is unambiguous and is exactly the policy that applies, in any row order |
| RatioPolicyLaws.RevisionFixesTerms | apps/api/src/veotrex_api/classroom_service.py:921-966 | a (policy, revision) pair names one set of terms for ever and a deactivated policy never applies again |
| RatioPolicyEffects.CreateIff | apps/api/src/veotrex_api/classroom_service.py:852-895 | a creation is accepted exactly in an active room, for numbers in range, below 100 policies, with an unclaimed period |
| RatioPolicyEffects.CreatedPolicyIsInForce | apps/api/src/veotrex_api/classroom_service.py:852-895 | a created policy is in force with the entered numbers at exactly the instants of its period, and every other one when it was |
| RatioPolicyEffects.EditedPolicyIsInForce | apps/api/src/veotrex_api/classroom_service.py:897-939 | an edited policy is in force with the new numbers and one new revision at exactly the new instants, and every other one when it was |
| RatioPolicyEffects.DeactivatedPolicyIsNotInForce | apps/api/src/veotrex_api/classroom_service.py:941-977 | a deactivated policy is in force at no instant, and every other one when it was |
| RatioPolicyEffects.SelectsTheLatestStart | apps/api/src/veotrex_api/classroom_ratio.py:312-322 | of applicable rows the latest start is chosen, then the highest revision, then the highest id |
| RatioPolicyEffects.AmbiguousIff | apps/api/src/veotrex_api/classroom_ratio.py:312-322 | the flag is raised exactly when two rows apply at once |
| RatioEvaluation.Latest | apps/api/src/veotrex_api/classroom_ratio.py:188-204 | each slot holds the most recent count of its role in the room, the first read of equally recent ones, and is empty exactly when there is none |
| RatioEvaluation.RequiredStaffIsLeast | apps/api/src/veotrex_api/classroom_ratio.py:411-416 | staff satisfy minimum and ratio for the children present exactly from required_staff on |
| RatioEvaluation.EvaluateRatio | apps/api/src/veotrex_api/classroom_ratio.py:419-521 | the state, conditions, explanations and numbers: conditions are exactly the exceeded limits, required the least sufficient staff, deficit the least sufficient addition, and no number without two fresh counts and a policy in force |
| RatioEvaluation.Measure | apps/api/src/veotrex_api/classroom_ratio.py:485-521 | the same for two fresh counts |
| RatioEvaluation.AnswerMeans | apps/api/src/veotrex_api/classroom_ratio.py:419-521 | each state, condition and explanation in terms of the policy's period and numbers, the two counts and their windows |
| RatioEvaluation.LatestMeans | apps/api/src/veotrex_api/classroom_ratio.py:188-204 | the slot's count is of that room and role and no such count is later; it is empty exactly without one |
| RatioEvaluation.EvaluationIsUnique | apps/api/src/veotrex_api/classroom_ratio.py:364-408 | those properties leave one possible answer |
| RatioEvaluation.AddingStaffNeverAddsACondition | apps/api/src/veotrex_api/classroom_ratio.py:497-521 | more staff never adds a condition, clears the ratio exactly from the deficit on, and lowers the deficit by what was added |
| ManualPresence.Newest | apps/api/src/veotrex_api/classroom_ratio.py:701-705 | no report of the list is newer by observed, created and id than the chosen one |
| PresenceService.PresenceReports.SubmitManualPresence | apps/api/src/veotrex_api/classroom_service.py:1116-1189 | appends one report or names the first refusal, by counts, validity, room and source mode |
| PresenceService.PresenceReports.RevokeManualPresence | apps/api/src/veotrex_api/classroom_service.py:1191-1229 | sets the revocation once, keeps the first, and touches no other column |
| ManualPresenceLaws.StepKeepsInv | apps/api/alembic/versions/0010_classroom_presence_snapshots.py:62-161 | submissions, revocations and any UPDATE the trigger lets through keep reports valid and ids distinct |
| ManualPresenceLaws.RunGrows | apps/api/alembic/versions/0010_classroom_presence_snapshots.py:126-161 | over any run reports are only added and only their first revocation is written |
| ManualPresenceLaws.AuthorityIff | apps/api/src/veotrex_api/classroom_ratio.py:747-783 | a report is authoritative exactly when it is the room's newest, not revoked and within its window |
| ManualPresenceLaws.SnapshotSharesTheWindow | apps/api/src/veotrex_api/classroom_ratio.py:707-783 | every count taken from a report is valid, is the report's number for that role, and is exactly as fresh as the report |
| ManualPresenceLaws.AuthorityIsNeverRegained | apps/api/src/veotrex_api/classroom_ratio.py:747-783 | over any run and any submission times a report that lost authority never has it again |
| ManualPresenceLaws.SubmissionTakesOverIff | apps/api/src/veotrex_api/classroom_service.py:1156-1171 | an accepted report is authoritative in its window exactly when no report of the room is ordered after it, as strictly increasing times guarantee |
| ManualPresenceLaws.OutrankedNeverSpeaks | apps/api/src/veotrex_api/classroom_ratio.py:701-783 | a report that another of its room outranks is authoritative at no moment of the rest of the run |
| ManualPresenceLaws.BackwardClockKeepsTheOldReport | apps/api/src/veotrex_api/classroom_service.py:1156-1171 | every run that begins with two submissions on a clock set back accepts the second, which is authoritative in no later state and at no moment |
| ManualPresenceLaws.NewestRowDecides | apps/api/src/veotrex_api/classroom_service.py:1008-1038 | whatever the ordered, limited query returns, its first row decides the same as the whole table |
| ManualPresenceLaws.HistoryShowsOneAuthority | apps/api/src/veotrex_api/classroom_service.py:1040-1105 | a history row is shown fresh exactly when it is the authority, and only the first row can be |
| ManualPresenceEffects.SnapshotCarriesTheReport | apps/api/src/veotrex_api/classroom_ratio.py:707-740 | each of a report's counts stands in its own role's slot, a missing one leaves its slot empty, and the unknown slot is empty |
| ManualPresenceEffects.SubmissionAcceptedIff | apps/api/src/veotrex_api/classroom_service.py:1116-1189 | a submission is accepted exactly in an active room, with counts in range for what its sources leave to the operator, a validity in range and a new id |
| ManualPresenceEffects.SubmittedNumbersAreEvaluated | apps/api/src/veotrex_api/classroom_ratio.py:707-783 | a report that takes over gives a fresh snapshot with exactly the submitted numbers, and the policy in force is measured against them |
| ManualPresenceEffects.RevokedIsSilent | apps/api/src/veotrex_api/classroom_service.py:1191-1229 | a revocation marks that report at its first time, nothing else, and it is never the authority again |
| ManualPresenceEffects.AvailabilityMeans | apps/api/src/veotrex_api/classroom_ratio.py:747-783 | each availability names its cause: no report, or the newest one revoked, ahead of its time, lapsed or in its window |
| ManualPresenceEffects.NewestIsLatest | apps/api/src/veotrex_api/classroom_ratio.py:701-705 | no report of the room is observed, created or numbered later than the newest |
| LeaseInvariants.StepKeepsInv | apps/api/src/veotrex_api/edge_whep.py:169-328 | every operation keeps: each node's counter equals its leases plus unsettled reservations with no zero entry, pending equals all unsettled reservations, both capacities, live ids and tombstones disjoint, tombstones within capacity |
| LeaseRuns.InvAlways | apps/api/src/veotrex_api/edge_whep.py:169-328 | after every run the counters match leases and reservations, both capacities hold, live ids and tombstones are distinct and tombstones within capacity |
| LeaseRuns.LeasesAreConserved | apps/api/src/veotrex_api/edge_whep.py:257-328 | committed leases are, as a multiset, the live ones plus those handed back, each once |
| LeaseRuns.RepeatedReleaseIsRecognised | apps/api/src/veotrex_api/edge_whep.py:228-306 | a released lease answers ALREADY_RELEASED to its owner for the whole TTL unless 8 * max_active later leases were handed back |
| LeaseRuns.TombstonesStayOrdered | apps/api/src/veotrex_api/edge_whep.py:195-232 | on a clock that never goes back tombstones are ordered by expiry, so eviction drops the earliest |
| LeaseLife.ReserveIff | apps/api/src/veotrex_api/edge_whep.py:235-247 | a slot is given exactly when leases and reservations together leave one, in all and for the node |
| LeaseLife.DrawableIff | apps/api/src/veotrex_api/edge_whep.py:257-285 | an id may be drawn exactly when no lease has it and none is remembered under it |
| LeaseLife.CommitTakesEffect | apps/api/src/veotrex_api/edge_whep.py:257-285 | the lease has the reserving node, the camera, connection and session it was committed with, and a sweep hands it back exactly from ttl after the commit on |
| LeaseLife.CommittedLivesForTtl | apps/api/src/veotrex_api/edge_whep.py:257-318 | over any run a lease that nobody releases or drains is handed back by the first sweep at or after commit plus ttl and by no earlier one |
| LeaseLife.ReleaseIff | apps/api/src/veotrex_api/edge_whep.py:287-306 | a release hands the lease back exactly to its owner and otherwise changes nothing |
| LeaseLife.DrainTakesEffect | apps/api/src/veotrex_api/edge_whep.py:320-328 | a drain hands back every lease and leaves only the reservations counted |
| LeaseLife.ForgottenAfterTtl | apps/api/src/veotrex_api/edge_whep.py:228-306 | from ttl after its release on, a release of the id is NOT_FOUND to everybody |
| LeaseBroker.AtMostOneProviderSession | apps/api/src/veotrex_api/edge_whep.py:473-506 | an attempt leaves at most one provider session: one if it returns, otherwise one exactly when its last post left one behind an answer that was neither a session nor a definite 401 |
| LeaseBroker.PostedAgainIff | apps/api/src/veotrex_api/edge_whep.py:473-506 | a second post is made exactly after a definite 401 with a refreshed credential, and the last answer is what the call returns |
| LeaseBroker.DeletedAgainIff | apps/api/src/veotrex_api/edge_whep.py:508-543 | a second DELETE is made exactly after a definite 401 with a refreshed credential, and none without a resource to name |
| LeaseBroker.OpenSessionAmongOthers | apps/api/src/veotrex_api/edge_whep.py:561-608 | whatever other registry calls run while an attempt waits, it ends with the invariant kept and its reservation settled, yields a lease exactly when every stage succeeded, and leaves no live lease of its id when it fails |
| LeaseBroker.FailedOpenLeaksNothing | apps/api/src/veotrex_api/edge_whep.py:561-608 | left alone, an attempt that ends without a lease, wherever it failed, leaves every lease, counter and reservation as it found it |
| LeaseBroker.ReportedReleaseEnds | apps/api/src/veotrex_api/edge_whep.py:508-543 | a teardown that reports success has ended the session whenever it had a resource to name |
| LeaseBroker.SessionOutlivesIff | apps/api/src/veotrex_api/edge_whep.py:561-608 | among any other calls, a provider session outlives a failed attempt exactly behind an ambiguous last post, or when the opened session names no resource or its teardown did not end it; a lease stands for exactly one session |
| WhepRegistry.WhepLeaseRegistry.Reserve | apps/api/src/veotrex_api/edge_whep.py:235-247 | takes a slot exactly when both capacities leave one |
| WhepRegistry.WhepLeaseRegistry.CancelReservation | apps/api/src/veotrex_api/edge_whep.py:249-255 | gives the slot back once; a settled reservation changes nothing |
| WhepRegistry.WhepLeaseRegistry.CommitReservation | apps/api/src/veotrex_api/edge_whep.py:257-285 | turns a reservation into a lease of its node with an unused id, the given camera, connection and session, expiring ttl from now |
| WhepRegistry.WhepLeaseRegistry.Release | apps/api/src/veotrex_api/edge_whep.py:287-306 | hands the lease back only to its owner, and tells a remembered one from an unknown one |
| WhepRegistry.WhepLeaseRegistry.PopExpiredLeases | apps/api/src/veotrex_api/edge_whep.py:308-318 | hands back exactly the expired leases and purges old tombstones |
| WhepRegistry.WhepLeaseRegistry.DrainAll | apps/api/src/veotrex_api/edge_whep.py:320-328 | hands back every live lease and remembers them |
| Text.HexOfHexValue | apps/api/src/veotrex_api/edge_auth.py:105-126 | hexadecimal text is recovered from its value |
| Text.UuidRoundTrip | apps/api/src/veotrex_api/encrypted_vault.py:72-85 | a UUID is recovered from its canonical text |
| Text.ParsedUuidIsCanonical | apps/api/src/veotrex_api/edge_auth.py:116-123 | only the canonical text of a UUID is parsed |
| Text.DecimalInjective | apps/api/src/veotrex_api/encrypted_vault.py:72-85 | different integers have different decimal text |
| VaultCodec.AadInjective | apps/api/src/veotrex_api/encrypted_vault.py:72-85 | associated data is injective in schema, provider, owner kind, owner and version |
| VaultCodec.AadEncodableIff | apps/api/src/veotrex_api/encrypted_vault.py:83-85 | a context is encodable exactly when provider and owner kind are free of the separator |
| VaultCodec.EncodableIff | apps/api/src/veotrex_api/encrypted_vault.py:88-96 | a material is encodable exactly when both secrets are there, at most 8192 long and free of the separator |
| VaultCodec.DecodeUndoesEncode | apps/api/src/veotrex_api/encrypted_vault.py:88-104 | decoding undoes encoding |
| VaultCodec.EncodeUndoesDecode | apps/api/src/veotrex_api/encrypted_vault.py:88-104 | encoding undoes decoding exactly within the size and separator limits |
| VaultCodec.SecondSeparatorIsLost | apps/api/src/veotrex_api/encrypted_vault.py:88-104 | a concrete plaintext with two separators that is decoded and cannot be encoded back |
| VaultModel.RowOpensOnlyAsItself | apps/api/src/veotrex_api/encrypted_vault.py:161-183 | a sealed row opens under its own binding and version and no other binding |
| VaultModel.MovedEnvelopeOpensIff | apps/api/src/veotrex_api/encrypted_vault.py:72-85 | an envelope opens in another row exactly when binding, version and schema agree |
| VaultModel.ExchangedEnvelopeOpens | apps/api/src/veotrex_api/encrypted_vault.py:72-85 | after a concrete run one row carrying the other's envelope opens to the other's material |
| VaultModel.StoreRefines | apps/api/src/veotrex_api/encrypted_vault.py:222-246 | storing gives the plain map's entry, exactly when material and context can be encoded, the id is new and the schema version passes the table's CHECK |
| VaultModel.GetRefines | apps/api/src/veotrex_api/encrypted_vault.py:248-276 | a read by a connected or claiming tenant answers as the plain map does, any other is unavailable |
| VaultModel.ReplaceRefines | apps/api/src/veotrex_api/encrypted_vault.py:278-314 | a rotation by a connected tenant gives the plain map's answer, version and contents; every refusal changes nothing |
| VaultModel.DeleteRefines | apps/api/src/veotrex_api/encrypted_vault.py:316-331 | a deletion by a connected tenant, or of a credential that was never taken, is the plain map's; any other is unavailable |
| VaultModel.EveryRowOpens | apps/api/alembic/versions/0006_vault_credential_boundary.py:98-228 | in every run under any schema versions every stored row opens under its own current context, version and schema |
| VaultModel.AtMostOneRotationWins | apps/api/alembic/versions/0006_vault_credential_boundary.py:158-198 | of any rotations with one expected version at most one succeeds |
| VaultAccess.OpensIff | apps/api/alembic/versions/0006_vault_credential_boundary.py:62-155 | a credential opens exactly under its own context for a tenant connected to its owner or claiming it |
| VaultAccess.RotatesIff | apps/api/alembic/versions/0006_vault_credential_boundary.py:62-198 | it rotates exactly for a connected tenant that knows its version, with a material that can be sealed |
| VaultAccess.RemovesIff | apps/api/alembic/versions/0006_vault_credential_boundary.py:62-228 | it is removed exactly by a connected tenant, or by anybody while its link never left RECEIVED or was never created |
| VaultAccess.StrangersGetNothing | apps/api/alembic/versions/0006_vault_credential_boundary.py:62-95 | another tenant, or none, neither reads, rotates nor removes one tenant's credential |
| VaultAccess.ReadsWhatWasStored | apps/api/src/veotrex_api/encrypted_vault.py:222-276 | what is stored is what a connected tenant reads, at version 1, and no other row changes |
| VaultAccess.ReadsWhatWasRotated | apps/api/src/veotrex_api/encrypted_vault.py:248-314 | after a rotation a connected tenant reads the new material at the next version, and no other row changes |
| VaultAccess.OnlyItsTenantTouchesIt | apps/api/alembic/versions/0006_vault_credential_boundary.py:62-228 | over any run a stored credential is the same row until a call that may rotate or remove it |
| CredentialVault.InMemoryCredentialVault.ReplaceIfVersion | apps/api/src/veotrex_api/credential_vault.py:85-103 | the dictionary's compare-and-swap, with its errors in order |
| CredentialVault.CredentialTable.Replace | apps/api/alembic/versions/0006_vault_credential_boundary.py:158-198 | the version-checked update changes one row or none |
| CredentialVault.EncryptedCredentialVault.StoreNew | apps/api/src/veotrex_api/encrypted_vault.py:222-246 | seals, then inserts; a failed seal leaves the table untouched |
| CredentialVault.EncryptedCredentialVault.Get | apps/api/src/veotrex_api/encrypted_vault.py:248-276 | opens the row under the caller's context for a connected or claiming tenant and for nobody else |
| CredentialVault.EncryptedCredentialVault.ReplaceIfVersion | apps/api/src/veotrex_api/encrypted_vault.py:278-314 | seals for the next version before the version-checked update, for a connected tenant only |
| CredentialVault.EncryptedCredentialVault.Delete | apps/api/src/veotrex_api/encrypted_vault.py:316-331 | deletes the row for a connected tenant or while it was never taken; an absent one is already deleted |
| RoomIngest.EdgeRuntimeService.IngestBatch | apps/api/src/veotrex_api/edge_runtime.py:257-292 | the loop's results and inserted rows are the fold over the batch with only the wanted portals loaded |
| RoomIngest.EdgeRuntimeService.One | apps/api/src/veotrex_api/edge_runtime.py:294-364 | one event's status and row, each refusal in the source's order |
| RoomIngestLaws.IngestUsesAllPortals | apps/api/src/veotrex_api/edge_runtime.py:270-289 | loading only the portals the batch names is loading all of them |
| RoomIngestLaws.AcceptedIff | apps/api/src/veotrex_api/edge_runtime.py:294-364 | an event is accepted exactly when it is a new, timely crossing of a portal of the camera in the camera's room, and it is stored whole in that room |
| RoomIngestLaws.KnownIdIs | apps/api/src/veotrex_api/edge_runtime.py:340-364 | of a known id the same crossing by the same node is a duplicate and any other event a conflict |
| RoomIngestLaws.RefusalNamesItsCause | apps/api/src/veotrex_api/edge_runtime.py:294-364 | each refusal names the first thing that is wrong |
| RoomIngestLaws.SplitBatch | apps/api/src/veotrex_api/edge_runtime.py:257-292 | ingesting a + b is ingesting a and then b |
| RoomIngestLaws.RetryIsIdempotent | apps/api/src/veotrex_api/edge_runtime.py:294-364 | ingesting a batch again leaves the table as it is and turns ACCEPTED into DUPLICATE, all else the same |
| RoomIngestLaws.ScheduleMerges | apps/api/src/veotrex_api/edge_runtime.py:257-364 | deliveries of any nodes, under changing assignments, add one arriving row for exactly the ids that arrive and had none, and overwrite nothing |
| RoomIngestLaws.SchedulesConverge | apps/api/src/veotrex_api/edge_runtime.py:257-364 | any two schedules of all nodes, with retries, splits and reorderings, that bring the same rows end in the same table, provided one id names one row |
| RoomIngestLaws.FirstOfTwoStays | apps/api/src/veotrex_api/edge_runtime.py:294-364 | of two different rows under one new id the first delivered stays, so without that proviso the order shows |
| RuntimeConfig.SameRevisionIff | apps/api/src/veotrex_api/edge_runtime.py:92-101 | two cameras have one configuration revision exactly when id, assignment and the set of portals agree |
| RuntimeConfig.VersionNamesConfiguration | apps/api/src/veotrex_api/edge_runtime.py:104-114 | two snapshots have one version exactly when they have the same cameras with the same portals, in any reading order |
| FailureLogLimiter.AuthenticationFailureLogLimiter.Allow | apps/api/src/veotrex_api/access.py:38-47 | opens a new window, counts and refuses as the step says |
| FailureLogLimiter.FilledWindows | apps/api/src/veotrex_api/access.py:38-47 | the calls allowed since an instant fill windows that are a window length apart, and the rest of one |
| FailureLogLimiter.AllowedInWindows | apps/api/src/veotrex_api/access.py:30-47 | on a non-decreasing clock at most (k + 1) * limit calls are allowed in any half-open interval of k windows |
| FailureLogLimiter.BoundIsReached | apps/api/src/veotrex_api/access.py:30-47 | and for every k > 0 a history of k + 1 full windows around a window edge reaches that bound |
| FailureLogLimiter.RefusedIffWindowIsFull | apps/api/src/veotrex_api/access.py:44-47 | a call is refused exactly when its window has already allowed limit calls |
| WebhookTable.RingWebhookInbox.IngestRingWebhook | apps/api/alembic/versions/0004_ring_inventory_webhooks.py:267-289 | a known request id changes nothing |
| WebhookTable.RingWebhookInbox.ClaimNextRingWebhook | apps/api/alembic/versions/0004_ring_inventory_webhooks.py:291-319 | claims an earliest received of the ready, unlocked rows, and nothing exactly when there is none |
| WebhookTable.RingWebhookInbox.FinishRingWebhook | apps/api/alembic/versions/0004_ring_inventory_webhooks.py:321-340 | completes a PROCESSING row only, and refuses any other requested state |
| WebhookInboxLaws.ClaimsBalance | apps/api/alembic/versions/0004_ring_inventory_webhooks.py:267-341 | in every run a row's claims equal its attempts, are at most five, and exceed its completions by one exactly while it is PROCESSING |
| WebhookInboxLaws.DeliveredWaits | apps/api/alembic/versions/0004_ring_inventory_webhooks.py:267-289 | a new request id waits unclaimed and due at once, a known one changes nothing |
| WebhookInboxLaws.ClaimedIsHeld | apps/api/alembic/versions/0004_ring_inventory_webhooks.py:291-319 | a claim holds one open, due, unlocked row with one more attempt |
| WebhookInboxLaws.MayClaimIff | apps/api/alembic/versions/0004_ring_inventory_webhooks.py:291-319 | a row may be claimed exactly when it is open, due, unlocked, below five attempts and received no later than any other such row |
| WebhookInboxLaws.NothingClaimedIff | apps/api/alembic/versions/0004_ring_inventory_webhooks.py:291-319 | nothing is claimed exactly when no row is waiting |
| WebhookInboxLaws.FinishedRecords | apps/api/alembic/versions/0004_ring_inventory_webhooks.py:321-340 | a completion records its outcome, reason and next attempt, and when the outcome is final |
| WebhookInboxLaws.TerminalIsFinal | apps/api/alembic/versions/0004_ring_inventory_webhooks.py:321-340 | a row that is PROCESSED or FAILED_PERMANENT is never changed again |
| WebhookInboxLaws.RetryWaitsItsTime | apps/api/alembic/versions/0004_ring_inventory_webhooks.py:301-336 | after a completion that asks for a retry at a time, the row's next claim is not before that time |
| WebhookInboxLaws.WorkDecreases | apps/api/alembic/versions/0004_ring_inventory_webhooks.py:267-341 | every claim and completion lowers a measure that only a new request id raises |
| WebhookInboxLaws.WorkIsBounded | apps/api/alembic/versions/0004_ring_inventory_webhooks.py:267-341 | claims and completions of a whole run number at most ten per distinct request id |
| WebhookInboxLaws.ClaimsAreBounded | apps/api/alembic/versions/0004_ring_inventory_webhooks.py:291-319 | all workers together claim at most five times per distinct request id |
| FaceVectors.NormalizeIsUnit | apps/api/src/veotrex_api/face_matching.py:93-107 | a normalised vector has length one |
| FaceVectors.NormalizeIff | apps/api/src/veotrex_api/face_matching.py:93-107 | between 1 and 4096 values not all zero are normalised, each divided by the length |
| FaceVectors.ClampIsIdle | apps/api/src/veotrex_api/face_matching.py:137-146 | for exactly normalised vectors the clamp never changes the dot product |
| FaceVectors.SimilarityIsLipschitz | apps/api/src/veotrex_api/face_matching.py:137-146 | moving the query by at most e moves any similarity by at most e |
| RecognitionLaws.AggregateIgnoresOrder | apps/api/src/veotrex_api/face_matching.py:149-159 | a teacher's score does not depend on the order of the templates |
| RecognitionLaws.RecognizeIgnoresOrder | apps/api/src/veotrex_api/face_matching.py:162-188 | with distinct staff ids the result does not depend on the order of the candidates |
| RecognitionLaws.MatchIsClear | apps/api/src/veotrex_api/face_matching.py:182-188 | a match clears the threshold and leads every other candidate by the margin |
| RecognitionLaws.ClearIsMatch | apps/api/src/veotrex_api/face_matching.py:182-188 | with a positive margin a candidate that does so is the match |
| RecognitionLaws.UnknownNamesItsReason | apps/api/src/veotrex_api/face_matching.py:182-188 | below_threshold means that no candidate reaches the threshold, ambiguous that one does and none is clear of the others |
| RecognitionLaws.AggregateIsMeanOfBestTwo | apps/api/src/veotrex_api/face_matching.py:149-159 | a teacher's score is the only similarity, or the mean of the two best |
| RecognitionLaws.RecognizedIff | apps/api/src/veotrex_api/face_matching.py:162-188 | somebody is named exactly when one candidate reaches the threshold and leads every other by the margin, and it is that one |
| RecognitionLaws.ReportsTheTwoBest | apps/api/src/veotrex_api/face_matching.py:162-188 | the reported score is the best of all and the runner-up the best of the others |
| RecognitionLaws.MatchSurvives | apps/api/src/veotrex_api/face_matching.py:162-188 | a match that clears the threshold by e and the margin by 2e is the match of every query within e |
| RecognitionLaws.NearQueriesAgree | apps/api/src/veotrex_api/face_matching.py:162-188 | two queries less than the margin apart never match different people |
| EdgeToken.DecodeOfEncode | apps/api/src/veotrex_api/edge_auth.py:95-102 | decoding the printed secret gives its bytes |
| EdgeToken.EncodeOfDecodeIff | apps/api/src/veotrex_api/edge_auth.py:117-125 | re-encoding gives the text back exactly when its unused trailing bits are zero |
| EdgeToken.IssuedTokenAuthenticates | apps/api/src/veotrex_api/edge_auth.py:95-126 | a printed token parses to its selector and the digest stored for it |
| EdgeToken.AcceptedTokenIsPrinted | apps/api/src/veotrex_api/edge_auth.py:105-126 | every accepted text is the printed form of what it parses to |
| EdgeToken.AcceptedIffCanonical | apps/api/src/veotrex_api/edge_auth.py:43-49 | of the texts of the right shape exactly those with zero trailing bits are accepted |
| EdgeToken.TokensAreDistinct | apps/api/src/veotrex_api/edge_auth.py:76-102 | two credentials share a token or a digest only if they are the same |

## Left out

- Roles, permissions, facility readability and tenant isolation: every caller holds the permission, and one tenant's
  rows are modelled, except for the primary keys that tenants share in `RoomIngest`.
- CareService.GuardianService.CreateLink: the bound of 20 ACTIVE links holds when transactions follow one another;
  nothing is claimed for concurrent writers of different pairs, because the source's lock covers one pair.
- CareService.GuardianService.ReleaseOptions: the order of entries, candidates and refusals within one answer is not
  modelled, nor the names shown in it.
- PresenceService.PresenceReports.SubmitManualPresence: the composition of a manual report with the staff roster is not
  modelled; the room's source mode only decides which counts a report must carry.
- RatioEvaluation.RequiredStaffIsLeast: the ceiling of a floating-point quotient is taken to be the integer ceiling,
  which it is within the validated ranges.
- FaceVectors.NormalizeIsUnit: reals instead of float32 and float64, so no rounding and no non-finite values; the
  square root is a parameter that squares to the sum of squares.
- WhepRegistry.WhepLeaseRegistry.Reserve: the branch that removes a counter entry of zero after a refused reservation
  cannot be taken with positive bounds and is absent.
- VaultCodec.DecodeUndoesEncode: plaintexts are sequences of code units; decoding bytes as UTF-8 is not modelled.
- Cleaning of names, labels, notes and references; audit rows; created_at and received_at columns with their CHECKs
  against the future, except for operator reports, and the CHECK that a room transition is at most 7 days older than
  its receipt.
- AES-GCM and SHA-256 as algorithms: an ideal sealed box, and digests that are equal only for equal inputs. The
  canonical JSON under the configuration digests is likewise taken to be injective.
- The limits on how many children, contacts and classrooms a facility may have, and the editing of their other fields.
- 32-bit and 64-bit overflow of sequences, revisions and versions.
- Conversion of local calendar days to UTC periods; policies start from half-open UTC periods.
- The staff roster and the composition of presence sources, camera head counts and their reconciliation.
- HTTP routes, request and response models, the provider's network behaviour, token refresh, the web client.
- Webhook workers themselves: a row left PROCESSING by a worker that died stays so, as in the source, and whose claim a
  completion belongs to is not recorded there either.
- Camera portal geometry, staff enrollment, pending provider links as a table of states.
