# Verified model of the badge server

A Dafny model of the state-changing parts of the Open Educational Badges server, with proofs of what they
guarantee. The database tables are fields of classes; the handlers and model methods that update them are methods
over those fields, proved against specifications that do not mention how the work is done. Queries whose order the
database chooses are modelled with an arbitrary order, so every result holds for all of them.

`dafny verify dfyconfig.toml` checks the project.

| files | what they model |
|---|---|
| `AwardRules`, `AwardCascade`, `AwardTheorems`, `AwardCounts`, `AwardThresholds`, `PathActivation` | awarding a badge, and the cascade through learning paths |
| `DeletionRules`, `DeletionOrder` | what a deletion must take along, and whether it can trip over itself, decided on the catalogue before it |
| `DeletionRuns`, `DeletionNesting`, `DeletionTheorems`, `DeletionExamples` | every order in which a deletion can run, and what these come to |
| `BadgeDeletion`, `PathDeletion` | deleting badge classes, and the tables with the re-entrant methods |
| `NetworkProtocol`, `NetworkDesk` | invitations and memberships of networks, with their quota |
| `StaffRules`, `IssuerStaffing` | staff of an issuer, and when it keeps an owner |
| `EmailRules`, `EmailItems` | reconciling the e-mail addresses of a user |
| `QuotaPeriods` | quota periods with clamped month ends |
| `PngBakery` | baking badges into PNG chunks and reading them back |
| `TwoFactorRules`, `TwoFactor` | the two-factor state and its backup codes |
| `Basics`, `Text` | shared types and lower-casing |

## Main results

**Awards.** `AwardRules.Closure` is the least set that contains the old holdings and the awarded badges and in which
no path touched by a new badge is left due. One call of `create` reaches exactly that set from *any* state
(`BadgeInstanceManager.Create`), with one new instance of the awarded class and of each class that the cascade adds,
and nothing else. If nothing was due before, it is the least set closed under all active paths. What is held in the end
does not depend on the order of the awards, nor on nesting, duplicate rows, cycles or shared participation badges. The
number of instances can: `RunCounts` gives it for every run, and `CountFixedExactly` says exactly when it is the same
for all orders: the class is not awarded to the recipient, or held already, or not reached by the other awards.
`GainsAreEarned` and `EnoughIsRewarded` say the same in terms of rows and fields: a badge comes in only with the required
number of distinct badges of an active path, and with that number it does.
The nested `issue` lower-cases the identifier. How identifiers are compared is a parameter, because it depends on the
collation of the database: where `Lower(r)` does not compare equal to `r`, the cascade serves another recipient,
`PathsOfAwardServed` says exactly when paths stay due, and `StrayCounts` and `StrayRepeats` how instances pile up there.

**Deletions.** `DeletionRules.Doomed` is the least set of paths that contains the deleted ones and forces out no
further path. A deletion that completes leaves exactly the catalogue without the doomed paths and without all rows for
their participation badges, whatever the order of rows; what an abandoned deletion has done stays within them.
`DeletionRuns.Run` relates a catalogue to every way a deletion can end, over all orders of rows; `DeletePath` is proved
to be one of these. `RaisesExactly` says for every catalogue when some order raises `DoesNotExist`: when some order
comes to a deletion, nested or not, that overtakes a path, that is, forces it out even if its own row comes last.
Overtaking is decided on the catalogue. So a `Smooth` catalogue, in which nothing is overtaken, completes in every
order; where the requested path overtakes another, some order raises (`OvertakenRaises`); `CompletesExactly` and
`DirectCompletesExactly` are exact conditions on the catalogue alone. Whether a deletion completes can depend on the
order of rows (`DiamondDependsOnOrder`), but paths that contain each other's participation badges alone are no obstacle
(`MutualPairCompletes`). `DeleteBadge` completes for a badge class contained only in paths without participation
badges if the catalogue is smooth for the paths that go with it and none of them has just two rows, both for the badge.
On completion no path has the badge as participation badge and no row is for it, and exactly the paths and rows that
neither it nor the doomed paths account for are left (`LeftOver`). `BadgeDeletionKeepsTwo` is the exact condition under which every path keeps two badges: the guard `count() <= 2`
counts rows, so it misses a path with three rows of which fewer than two are for other badges
(`TwiceAndOneLeavesOne`).

**Networks.** Over every run, a pair has at most one pending or approved invite, an issuer is a member exactly when its
invite is approved, `revoked` agrees with the status, an invite is accepted at most once, and the quota is never passed.
The one exception is a membership created together with its network, which has no invite; the invariant names these.
Each handler keeps this invariant and every quota, and says exactly when it accepts and what it changes; an invitation
may fill the quota but not pass it.
A comment in the handler says that earlier pending invites are revoked; the code deletes them, and so does the model.

**Staff.** `EnsureOwnerExactly` and `RequestLosesOwnerExactly` say exactly when `ensure_owner` and a staff request leave
an issuer without owner; the last branch of `ensure_owner` sets a role on a user, not on a staff row, and promotes
nobody. Requests by owners and reconciliations never lose the last owner. Reconciliation adds users with the requested
role, the last one where several are requested, but does not change the role of users who are already on the staff.

**E-mail.** `ApplyAllExactly` says exactly when a request fails, and `AddressesExactly` and `OnePrimaryExactly` exactly
which addresses and primaries remain. That one primary address remains is not true of all requests: it fails if a later
entry repeats the primary address, or if the database distinguishes case and an own primary address is requested in
another spelling (`TwoPrimariesExample`). `SetEmailItems` promises these
results for every request, and with them the variants of each address.

**PNG.** `RoundTripExactly` gives the payloads that survive baking and reading. The description of `unbake` says that an
iTXt badge takes precedence over a tEXt badge; the code reads whichever comes first, and so does the model.
`PrecedenceExactly` says exactly when the description holds, and `PrecedenceWhenBaked` that it does in a baked image.

**Two factors.** Over every interleaving of requests, issued backup codes are the remaining ones and the accepted ones,
so that no code is accepted more often than it was issued. Each handler keeps this on the user record.

**Quota periods.** The loops stop at the first boundary not before now; `PeriodsMeetExactly` says when neighbouring
periods meet. The usage queries count whole days and include both ends, so a boundary day counts in both periods even
when they meet exactly (`CountedTwiceExactly`).

## Model

| member | source | states |
|---|---|---|
| AwardRules.ClosureIsLeast | apps/issuer/managers.py:452-467 | the cascade's fixpoint: least set with the holdings and awards in which no path touched by a new badge is due |
| AwardRules.ClosureFromClosed | apps/issuer/managers.py:456-467 | from a state with nothing due it is the least set closed under every active path |
| AwardRules.DueShrinks | apps/issuer/models.py:3439-3449 | awarding never makes a path due, and no path containing an awarded badge stays due |
| AwardRules.ClosureCompose | apps/issuer/managers.py:456-467 | two batches of awards come to the same as both at once, from any state |
| AwardRules.AwardAllIsClosure | apps/issuer/managers.py:456-467 | a sequence of awards depends only on the set of badges in it |
| AwardRules.AwardOrderIrrelevant | apps/issuer/managers.py:456-467 | reordering a sequence of awards does not change the badges held in the end |
| AwardRules.ActivationRestoresClosed | apps/mainsite/tasks.py:10-25 | switching a path on and awarding its badge where due leaves nothing due |
| AwardCascade.QueriesAreRules | apps/issuer/models.py:3426-3449 | the two path queries over the instance table are the rules over the distinct unrevoked badges held, which DueExactly spells out |
| AwardThresholds.DueExactly | apps/issuer/models.py:3426-3449 | a path is due exactly when switched on, not archived, its participation badge missing and the required number of its distinct badges held |
| AwardThresholds.HeldExactly | apps/issuer/models.py:3428-3432 | a badge is held exactly with an instance that is not revoked and whose identifier compares equal |
| AwardThresholds.JoinedExactly | apps/issuer/managers.py:456-458 | the query for paths to look at again returns each active path once for each of its rows with the badge |
| AwardCascade.CascadeStep | apps/issuer/managers.py:459-467 | one nested issue keeps the holdings within the least fixpoint, and makes no path due |
| AwardCascade.IssueDecreases | apps/issuer/managers.py:461-467 | each nested issue has strictly fewer missing participation badges, on any path graph, or has left the original identifier for good |
| AwardCascade.BadgeInstanceManager.Create | apps/issuer/managers.py:325-469 | the new row for the identifier, lower-cased or normalised by its type, then rows for the lower-cased recipient only: for a stable recipient exactly one for each badge of the least fixpoint that was lacking; otherwise what is due goes to the lower-cased identifier, once for each due row of the badge, with the count of each class |
| AwardCascade.BadgeInstanceManager.Issue | apps/issuer/models.py:1467-1507 | issuing a badge class is creating an instance, with the same effect |
| AwardTheorems.CreateReachesLeastClosed | apps/issuer/managers.py:452-469 | one call ends with the least closed superset of the old holdings and the badge |
| AwardTheorems.CreateMakesNothingDue | apps/issuer/managers.py:456-467 | from any state, the due paths afterwards were due before and do not contain the badge |
| AwardTheorems.PathsOfAwardServed | apps/issuer/managers.py:461-467 | exactly when no path of the badge stays due, for stable and other identifiers |
| AwardThresholds.AwardGiven | apps/issuer/managers.py:366-374 | the recipient has the awarded badge afterwards |
| AwardThresholds.GainsAreEarned | apps/issuer/models.py:3437 | every other badge gained is the participation badge of an active path of which the recipient has the required number of distinct badges |
| AwardThresholds.EnoughIsRewarded | apps/issuer/managers.py:459-467 | conversely, with the required number of distinct badges of an active path with the badge, the participation badge is held afterwards |
| AwardThresholds.LowerGainsAreEarned | apps/issuer/managers.py:459-467 | where the lower-cased identifier is another one, what it gains is earned by the recipient or by itself |
| AwardThresholds.EnoughRewardsLower | apps/issuer/managers.py:459-467 | and it gets the participation badge that the recipient has earned and lacks |
| AwardTheorems.UppercaseRecipientMissesOut | apps/issuer/utils.py:172-174 | an upper-case identifier completes a path whose badge goes to the lower-case one |
| Text.LowerExactly | apps/issuer/utils.py:174 | capital letters become the small letters in their order, and nothing else changes |
| Text.LowerAlphabet | apps/issuer/utils.py:174 | one identifier with letters from the whole alphabet |
| AwardTheorems.AtMostOneOfEach | apps/issuer/models.py:3439-3447 | one more instance of the badge, one more of another class exactly where the recipient gained it, none otherwise |
| AwardThresholds.InstancesExactly | apps/issuer/models.py:3428-3432 | there are instances to count exactly where the badge is held |
| AwardTheorems.OthersUntouched | apps/issuer/managers.py:366-374 | nothing changes for other recipients |
| AwardTheorems.RunsConverge | apps/issuer/managers.py:456-467 | two runs of the same awards to any recipients, in any order, from the same table: everyone holds the same badges |
| AwardTheorems.RunsStayClosed | apps/issuer/managers.py:456-467 | a recipient with nothing due never has anything due over a run |
| AwardTheorems.StrayCounts | apps/issuer/managers.py:456-467 | how many instances an award to an identifier that is not stable gives the lower-cased one |
| AwardTheorems.StrayRepeats | apps/issuer/models.py:3437-3449 | awarding the badge to it again adds the same number every time, since what is due to it stays due |
| AwardCounts.RunCounts | apps/issuer/managers.py:456-467 | over every run: one instance for each award, and one more exactly if the cascade issues the class before its first award |
| AwardCounts.CountFixedExactly | apps/issuer/managers.py:456-467 | exactly when every order of the same awards from the same table gives the same number of instances |
| AwardTheorems.InstanceCountDependsOnOrder | apps/issuer/managers.py:456-467 | two awards whose order decides whether there are one or two instances |
| PathActivation.ProcessActivation | apps/mainsite/tasks.py:10-27 | everyone whose identifiers are served under their own name: those covered who completed the path without its badge get the fixpoint from it, with exactly one new instance of each class gained, and everyone else is left alone |
| PathActivation.ActivationServesEveryone | apps/mainsite/tasks.py:10-25 | after switching a path on, nothing is due to those covered who had nothing due |
| AwardThresholds.ActivationRewardsEnough | apps/mainsite/tasks.py:18-25 | whoever is covered and has the required number of distinct badges has the participation badge afterwards |
| DeletionRules.DoomedIsLeast | apps/issuer/models.py:3471-3481 | the doomed paths: least set with the deleted ones that leaves no other path hit and with fewer than two rows |
| DeletionRules.RemoveExactly | apps/issuer/models.py:3471-3481 | which paths and rows are left when a set of paths is deleted |
| DeletionRules.SurvivorsUntouchedOrTwo | apps/issuer/models.py:3477-3480 | every surviving path keeps all its rows or at least two |
| DeletionRules.DeletionKeepsTwo | apps/issuer/models.py:3471-3481 | two badges per path is kept, and no row refers to a deleted path's badge |
| DeletionRules.DoomedCompose | apps/issuer/models.py:3471-3481 | deleting in two rounds is deleting at once |
| DeletionRuns.ShortPathIsDoomed | apps/issuer/models.py:3479-3480 | the test for fewer than two rows only deletes doomed paths |
| DeletionRuns.NestedDoom | apps/issuer/models.py:3479-3481 | a nested deletion dooms nothing new |
| DeletionTheorems.PendingStays | apps/issuer/models.py:3477-3480 | a nested deletion leaves the paths of all rows still to come, except those it overtakes |
| DeletionNesting.Overtakes | apps/issuer/models.py:3477-3481 | a deletion comes to a row whose path is gone only if the catalogue before it says so |
| DeletionNesting.SmoothNested | apps/issuer/models.py:3479-3480 | nested deletions start from a smooth catalogue again |
| DeletionOrder.UntangledIsSmooth | apps/issuer/models.py:3471-3481 | a simple case of smooth: no shared participation badges, every doomed path keeps a row or has one doomed row, and the deleted path is not drawn in again or just one doomed path contains its badge |
| DeletionTheorems.RunExactly | apps/issuer/models.py:3471-3481 | every order of rows: the same final catalogue on completion, the limits of what an abandoned deletion did, completion when smooth, the error when a path has only rows for the badge |
| DeletionTheorems.OvertakenRaises | apps/issuer/models.py:3477-3480 | where the deleted path overtakes another, some order raises |
| DeletionTheorems.RaisesExactly | apps/issuer/models.py:3471-3481 | for every catalogue, exactly when some order raises: when some order comes to a deletion that overtakes a path |
| DeletionTheorems.CompletesExactly | apps/issuer/models.py:3471-3481 | on the catalogue alone, exactly when every order completes, if the deleted path is among those that overtake |
| DeletionTheorems.DirectCompletesExactly | apps/issuer/models.py:3471-3481 | the same where doomed paths contain no participation badge of a doomed path but the deleted one's: no path has two rows or more all for it |
| DeletionTheorems.NestedRaises | apps/issuer/models.py:3479-3480 | if the first nested deletion can raise, so can the whole |
| DeletionExamples.MutualPairCompletes | apps/issuer/models.py:3471-3481 | two paths with each other's participation badge: deleting one completes |
| DeletionExamples.DiamondDependsOnOrder | apps/issuer/models.py:3477-3480 | a catalogue with two badges in every path where one order completes and another raises |
| DeletionExamples.SameBadgeTwiceRaises | apps/issuer/models.py:3477-3480 | a catalogue with two badges in every path where every order raises |
| PathDeletion.CatalogStore.DeletePath | apps/issuer/models.py:3471-3481 | one of the runs over all orders; on completion exactly the doomed paths and the rows for their badges are gone, otherwise only such were touched; it completes from every smooth catalogue and raises with a path that has only rows for the badge |
| PathDeletion.CatalogStore.DeleteBadge | apps/issuer/models.py:1301-1323 | refused while assertions count; on completion no row is for b and no path has it as participation badge, all small paths with b are gone, and exactly the paths and rows are left that neither b nor the doomed paths account for; in a clean catalogue exactly the small paths with b are deleted; a path with just two rows for b makes it raise, and without one it completes from every clean catalogue that is smooth for the small paths |
| BadgeDeletion.LeftOverExactly | apps/issuer/models.py:1316-1322 | the catalogue after the deletion of a badge in terms of paths and rows; the cascade over participation badges is the foreign key at 3249 |
| BadgeDeletion.RoundSmooth | apps/issuer/models.py:1316-1319 | a catalogue that is smooth for all paths that go with a badge stays smooth for each of them in turn |
| BadgeDeletion.UnusedPartsAreSmooth | apps/issuer/models.py:1316-1319 | it is smooth if no path contains their participation badges |
| BadgeDeletion.BadgeDeletionKeepsTwo | apps/issuer/models.py:1316-1319 | exactly when every surviving path keeps two badges after a badge class is deleted |
| BadgeDeletion.SingleBadgeDeletionKeepsTwo | apps/issuer/models.py:1316-1319 | it does when the badge occurs once in each path |
| DeletionExamples.TwiceAndOneLeavesOne | apps/issuer/models.py:1316-1319 | a clean catalogue where deleting a badge completes and leaves a path with one badge |
| NetworkProtocol.StepKeepsConsistent | apps/issuer/models.py:1009-1053 | each request keeps one live invite per pair, membership exactly when approved, and the revoked flag |
| NetworkProtocol.StepKeepsQuota | apps/issuer/models.py:438-441 | partners plus pending invites stay within the quota at each request |
| NetworkProtocol.RunsAreConsistent | apps/issuer/api.py:2518-2545 | the same after every run from empty tables, with the founding memberships named |
| NetworkProtocol.RunsKeepQuota | apps/issuer/api.py:2642-2646 | the quota holds after every run that starts within it |
| NetworkProtocol.RunsMoveForward | apps/issuer/api.py:2468-2490 | an invite only goes from pending to approved or revoked, and from approved to revoked; no identifier is reused |
| NetworkProtocol.AcceptedOnce | apps/issuer/api.py:2522-2532 | once confirmed or revoked, an invite is never accepted again |
| NetworkDesk.Handlers.CreateNetwork | apps/issuer/serializers_v1.py:181-216 | exactly when it is allowed; the new network starts with usage one for a parent and none without, all other usages stay, and the invariant and all quotas are kept |
| NetworkDesk.Handlers.PostInvites | apps/issuer/api.py:2611-2696 | accepted exactly for an existing network, an editor, a non-empty list of known issuers that are no members, and usage plus list length within the quota; QuotaExceeded exactly beyond it; then one fresh pending invite for each distinct issuer in place of its pending ones, all other invites untouched, and the invariant and all quotas kept |
| NetworkDesk.Handlers.Confirm | apps/issuer/api.py:2518-2550 | accepted exactly for a pending invite, whose issuer was no member and is one now; no usage changes, and the invariant is kept; any other is refused unchanged |
| NetworkDesk.Handlers.Revoke | apps/issuer/api.py:2468-2496 | accepted exactly for a pending invite; the pair has no pending or approved invite left, the usage of its network drops by one and no other changes |
| NetworkDesk.Handlers.RemoveIssuer | apps/issuer/api.py:318-349 | accepted exactly for a member when asked by an editor; neither membership nor pending or approved invite of the pair is left, the usage drops by one and no other changes |
| StaffRules.EnsureOwnerExactly | apps/issuer/models.py:632-706 | exactly when ensure_owner leaves no owner, and that it removes nobody and replaces no creator |
| StaffRules.EnsureOwnerPromotes | apps/issuer/models.py:651-706 | who becomes owner and creator, an editor before others, and when the issuer is no longer verified |
| StaffRules.OwnerAndCreator | apps/issuer/models.py:635-642 | an owner and a creator whenever there is staff and the creator is unset or on it |
| StaffRules.DepartedCreatorExample | apps/issuer/models.py:690-706 | a creator who left, an editor who is not promoted |
| StaffRules.EnsureOwnerTwice | apps/issuer/models.py:632-706 | running ensure_owner again changes nothing |
| StaffRules.ReconciledExactly | apps/issuer/models.py:773-795 | the reconciled staff in terms of the staff before and the entries of the request |
| StaffRules.DeleteWithOtherOwner | apps/issuer/models.py:1077-1088 | deleting a staff row leaves the others as they are while an owner is among them |
| StaffRules.OwnerRequestKeepsOwner | apps/issuer/api_v1.py:244-299 | a request by an owner keeps that owner and everyone but its target |
| StaffRules.RequestLosesOwnerExactly | apps/issuer/api_v1.py:250-299 | exactly when a request, privileged or not, leaves no owner |
| StaffRules.RunsKeepOwner | apps/issuer/permissions.py:263-275 | no run of requests by owners and reconciliations loses the last owner |
| IssuerStaffing.Issuer.EnsureOwner | apps/issuer/models.py:632-706 | no owner is left exactly in the two states where nobody can be promoted; owners stay owners, at most one is made, and who it is; nobody else's role, the creator or the staff changes otherwise |
| IssuerStaffing.Issuer.NewContactEmail | apps/issuer/models.py:708-719 | the contact is an owner's primary address whenever an owner is left, and exactly when none is |
| IssuerStaffing.Issuer.DeleteStaff | apps/issuer/models.py:1077-1098 | who is left: everyone else, or the creator as owner again when the contact was the only one; exactly when no owner is left, and whose address the contact becomes |
| IssuerStaffing.Issuer.Post | apps/issuer/api_v1.py:244-300 | exactly when it is forbidden or refused; the target gets the requested role or goes; an owner who asks stays owner and only the target changes; exactly when the last owner is lost |
| IssuerStaffing.Issuer.SetStaffItems | apps/issuer/models.py:767-795 | new members get the last role requested for them and old ones keep theirs, except that someone may be promoted where nobody is or becomes owner; with an owner among old and new members, nobody else stays but one former owner exactly when there is no other; never drops a requested user |
| IssuerStaffing.RemovingDone | apps/issuer/models.py:789-795 | what the removal loop leaves once all records are visited |
| EmailRules.ApplyAllExactly | apps/badgeuser/models.py:389-447 | exactly when a request fails, and what each address becomes otherwise |
| EmailRules.AddressesExactly | apps/badgeuser/models.py:389-454 | which addresses the user has in the end; other rows are untouched and no verified address changes owner |
| EmailRules.VariantsOfAll | apps/badgeuser/models.py:87-97 | the variants of each requested address: those it had, those listed by entries that make or leave it verified, and its lower-case spelling where that is another and it had none |
| EmailRules.OnePrimaryExactly | apps/badgeuser/models.py:383-405 | exactly when one primary address remains and it is the requested one |
| EmailRules.DistinctRequest | apps/badgeuser/models.py:377-458 | with addresses distinct ignoring case and a database that ignores case: exactly those addresses and the requested primary |
| EmailRules.TwoPrimariesExample | apps/badgeuser/models.py:450-454 | a request that leaves the old spelling primary beside the new one |
| EmailItems.BadgeUser.SetEmailItems | apps/badgeuser/models.py:360-458 | nothing changes on an error; exactly which requests fail; otherwise exactly the requested addresses and the stale ones remain, each with its owner, flags and variants; the requested primary is the main address, and it is the only primary exactly when it is not repeated and nothing stale is primary |
| EmailItems.BadgeUser.SetAll | apps/badgeuser/models.py:391-447 | the loop over the entries applies them one after the other, up to the first that fails |
| EmailItems.BadgeUser.SetOne | apps/badgeuser/models.py:391-447 | one entry: found, taken over or created, verified, variants added, or refused |
| EmailItems.BadgeUser.AddVariants | apps/badgeuser/models.py:441-447 | all missing variants are added unless one does not match the address |
| EmailItems.BadgeUser.Prune | apps/badgeuser/models.py:450-454 | own addresses not named in any case are deleted |
| QuotaPeriods.AddYear | apps/issuer/models.py:372-373 | a year on, only 29 February is clamped |
| QuotaPeriods.MonthLengths | apps/issuer/models.py:376-379 | the lengths of the twelve months |
| QuotaPeriods.LeapExactly | apps/issuer/models.py:372-373 | the leap years of a cycle of 400 years |
| QuotaPeriods.BeforeExactly | apps/issuer/models.py:371-377 | moments compare by year, month, day and time of day |
| QuotaPeriods.PeriodEndIsFirst | apps/issuer/models.py:370-378 | the loops stop at the first boundary not before now |
| QuotaPeriods.BoundaryDay | apps/issuer/models.py:376-378 | the day is the minimum of the original day and all month lengths stepped on |
| QuotaPeriods.PeriodContainsNow | apps/issuer/models.py:369-379 | start < now <= end for a period that has begun |
| QuotaPeriods.PeriodsMeetExactly | apps/issuer/models.py:373-379 | neighbouring periods meet exactly when the day was not clamped in between; otherwise they overlap |
| QuotaPeriods.CountedTwiceExactly | apps/issuer/models.py:385 | exactly which days two neighbouring periods both count: with inclusive date ranges always the boundary day, and only it when they meet exactly |
| QuotaPeriods.JanuaryExample | apps/issuer/models.py:376-379 | a start on 31 January: the next window begins three days early and the day never recovers |
| QuotaPeriods.QuotaPeriodsAt | apps/issuer/models.py:369-379 | both loops end, around now |
| QuotaPeriods.NextQuotaPayment | apps/issuer/models.py:480-485 | the next payment is the end of the yearly period |
| PngBakery.EraseExactly | openbadges_bakery/png_bakery.py:21-25 | the substitution changes nothing exactly when the keyword followed by a zero does not occur |
| PngBakery.RoundTripExactly | openbadges_bakery/png_bakery.py:18-46 | exactly which payloads are read back after baking |
| PngBakery.RoundTripText | openbadges_bakery/png_bakery.py:18-46 | all payloads without zero bytes are read back |
| PngBakery.BakeReplaces | openbadges_bakery/png_bakery.py:49-65 | baking twice is baking the second time only |
| PngBakery.OthersSurvive | openbadges_bakery/png_bakery.py:55-65 | all other chunks survive in order, and only the new badge beside them |
| PngBakery.OthersExactly | openbadges_bakery/png_bakery.py:55-65 | exactly the chunks that begin with neither keyword survive, as often as they occur |
| PngBakery.BadgeLayout | openbadges_bakery/png_bakery.py:40-42 | the chunk parses as an uncompressed iTXt chunk with the keyword and the payload, for every payload |
| PngBakery.FirstCarrierWins | openbadges_bakery/png_bakery.py:19-27 | the first chunk with a badge is the one read |
| PngBakery.CarriesExactly | openbadges_bakery/png_bakery.py:19-27 | which chunks are badges: two types, two keywords |
| PngBakery.ExtractExactly | openbadges_bakery/png_bakery.py:20-27 | what is read from each of the four kinds of badge chunk |
| PngBakery.ExtractInternational | openbadges_bakery/png_bakery.py:20-25 | from an iTXt chunk of either keyword everything behind the zeros |
| PngBakery.PrecedenceExactly | openbadges_bakery/png_bakery.py:15-27 | exactly when an iTXt badge takes precedence, as described: no tEXt badge in front of it, or one with the same content |
| PngBakery.PrecedenceWhenBaked | openbadges_bakery/png_bakery.py:49-65 | it always does in a baked image whose first chunk is not a badge |
| PngBakery.TextBeforeInternationalText | openbadges_bakery/png_bakery.py:15-27 | a tEXt badge in front of an iTXt one is read instead of it |
| TwoFactorRules.StepConserves | apps/badgeuser/api_2fa.py:131-141 | issued codes are the remaining and the accepted ones, and enabled, confirmed and secret agree, at each step |
| TwoFactorRules.RunsConserve | apps/badgeuser/api_2fa.py:103-141 | the same over every interleaving of verify requests with setup, confirm and disable |
| TwoFactorRules.CodeAcceptedAtMostAsIssued | apps/badgeuser/api_2fa.py:131-141 | between a confirm and the next confirm or disable no code is accepted more often than it was issued |
| TwoFactor.UserRecord.Setup | apps/badgeuser/api_2fa.py:46-68 | exactly when not enabled; stores the fresh secret unconfirmed, and leaves issued, accepted and remaining codes and the flags coherent |
| TwoFactor.UserRecord.Confirm | apps/badgeuser/api_2fa.py:74-96 | exactly with a secret and a valid code; the fresh codes are the only ones left and none is accepted yet; otherwise nothing changes |
| TwoFactor.UserRecord.Verify | apps/badgeuser/api_2fa.py:103-149 | accepted exactly with a session and the one-time password or a remaining backup code; a code is used up only when the password fails, and only one |
| TwoFactor.UserRecord.UseBackup | apps/badgeuser/api_2fa.py:131-141 | accepted exactly for a remaining code, which goes once from remaining to accepted; issued codes stay remaining plus accepted, so none is accepted more often than issued |
| TwoFactor.UserRecord.Disable | apps/badgeuser/api_2fa.py:195-215 | exactly with the password and while enabled; no secret and no code remains, and issued and accepted codes end |

## Left out

- HTTP, serializers, tokens, mail, images, caches and the publishing of cached objects: reads are fresh reads of the tables, and no save or notification fails.
- Dates, images, evidence and extensions of badge instances, and expiry: the cascade looks at neither.
- URL normalisation is a parameter of the awards, and lower-casing covers ASCII letters only.
- DeletionTheorems.CompletesExactly: requires that the deleted path overtakes a path if any path does. Where only other paths overtake, RaisesExactly still gives the exact condition, but in terms of the nested deletions that the orders of rows come to, not of the catalogue alone.
- BadgeDeletion.BadgeDeletionKeepsTwo: for a badge whose paths contain participation badges, which paths with the badge are deleted can depend on the order of rows; the contract of DeleteBadge then says that all small ones and perhaps further ones were deleted with all they doom, and does not say when it completes.
- Deletion of issuers and of users, and invites without an issuer, which no request creates.
- Whether a user is an editor of a network, or of the parent issuer, is an input of the requests.
- Staff of networks, where owners of partners count as owners too.
- IssuerStaffing.Issuer.SetStaffItems: if neither the old staff nor the new members have an owner, it is not stated whether and whom the deletion of the contact promotes; and for an empty request in that state, who is left.
- A staff request names its target user directly; looking users up by name, address or telephone is not modelled.
- The address table is assumed to hold at most one row for each address over all users, and two requests to change it do not run at the same time.
- Email confirmations, and addresses that the database treats as equal although they differ by more than case.
- The year 9999, where calendar arithmetic overflows, and a clock that moves between two reads.
- PNG byte framing and the coding of text as bytes; SVG images.
- The client application and the access token of a verify request, which is refused after the code was checked if the client is unknown.
- The time-based codes themselves, which are an input, and saving a user record that was read before another request changed it.
- The list of badge classes an issuer may award, and the permission predicates beyond ownership.
