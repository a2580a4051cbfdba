# Verified core of the messenger server

A Dafny model of the parts of the server whose correctness is hardest to see: the V3 group
protocol (membership, ownership, group keys), the hashing and Bloom filters behind the
friendship checks, the concurrent registry, queues and throttle, and the smaller algorithms
for sending messages, system messages, contact parts and opaque data. `dafny verify
dfyconfig.toml` checks everything.

## How the model is built

**Storage.** The database, Redis and the clock are abstract state and parameters. A handler of
the group protocol is a sequence of storage calls, and the set `fails` names the calls of one
invocation that fail, without effect; results hold for every such set. The contracts assumed
of the stores come from the headers under `src/dao`. Where a header is silent the model assumes
that `insert` and `insertBatch` refuse a key that exists or is repeated in the batch and then
insert nothing, that deleting absent rows succeeds, that a batch lookup finding no row reports
that as an error of its own, and that `updateIfEmpty` fills those of the named columns that are
empty.

**Concurrency.** Registry, queues, throttle and key rotation are transition systems with one
step per critical section or storage call; results hold for every interleaving.

**Form.** Objects that change in place are classes whose methods are proved against a function
of the old state (`GroupController.Controller`, `DistributeKeys.Store`,
`BloomFilters.BloomFilters`, `DispatchRegistry.Registry`, `WakeupQueue.ConcurrentQueue`,
`Throttle.ThrottleControl`, `OpaqueStore.Controller`); loops of the source are loops here.
Arithmetic that wraps is over `bv32`, or written out.

## Where the obvious statement is false

Each is kept as the code has it, with the exact condition and a witness.

- A populated group is owned at every write boundary if and only if no add-me goes through
  while the group row exists and all members have left (`GroupProtocol.OwnershipOverRuns`,
  `GroupProtocol.EmptiedGroupRefilled`).
- A kick feeds the key decision the exact member count if and only if the request names
  members only and nobody twice (`GroupReview.KickFedCount`, `GroupReview.KickUndercounts`).
- Resubmitting an interrupted key distribution restores members and pending users always, and
  the stored keys exactly when the group is encrypted, the first attempt did not get past its
  insertion, or the inserted users came without a group secret
  (`DistributeKeys.ResubmissionExact`, `DistributeKeys.ResubmissionFillsWithheldKey`).
- The candidate loop ends if and only if the next `count` users from its start index are all
  master devices (`Candidates.SelectionTerminatesExactly`, `Candidates.SlaveDeviceHangs`).
- A patched Bloom filter answers rightly unless a flag it does not refresh meets a patch that
  refutes it (`BloomFilter.PatchedAnswerExact`, `BloomFilter.PatchedFullStale`,
  `BloomFilter.PatchedEmptyStale`), and a filter of no bytes rebuilds as a full one
  (`BloomFilter.EmptyContentRebuildsFull`).
- A queue popped one entry at a time that notifies only when it was empty loses no wakeup if
  and only if at most one consumer waits on it (`WakeupQueue.WakeupsSafeExactly`,
  `WakeupQueue.SecondConsumerStranded`).
- Both comparators of the system messages put a message before itself. Some permutation keeps
  the promise of both sorts if and only if no two messages share activity and id and no two
  activities their greatest id (`SystemMessages.DefinedExactly`); a message stored both for the
  user and for everybody, or one greatest id under two activities, is outside
  (`SystemMessages.SharedMessageUndefined`, `SystemMessages.SharedIdUndefined`).
- A send answered with success has delivered or stored every message but unheard noise if and
  only if no other message went unpublished to a failing store, whose result the handler drops
  (`MessageSend.SendReaches`, `MessageSend.LostUnderSuccess`).
- The lookups of a send are all defined after the device check, except that a noise message
  relies on the account listing the authenticated device (`MessageSend.LookupsDefined`,
  `MessageSend.NoiseToUnlistedDevice`).

Hysteresis of the key mode, on the other hand, needs no order of the three thresholds
(`KeyMode.Hysteresis`).

## Model

| member | source | states |
|---|---|---|
| `GroupProtocol.OwnershipOverRuns` | src/controllers/group_manager_controller_V3.cpp:453-1759 | over every run of non-overlapping handlers with any storage calls failing, every write boundary leaves a populated group with an owner if and only if no add-me refills an emptied group; the owners then number at most the initial ones (or one) plus the leaves whose delete failed |
| `GroupProtocol.ExactlyOneOwner` | src/controllers/group_manager_controller_V3.cpp:574-701 | from nothing, if no leave is cut between its promotion and its delete, a populated group ends with exactly one owner |
| `GroupProtocol.StepKeepsOwner` | src/controllers/group_manager_controller_V3.cpp:453-1759 | each handler keeps ownership at every write boundary, except exactly the add-me that refills an emptied group |
| `GroupProtocol.CreateKeepsOwner` | src/controllers/group_manager_controller_V3.cpp:703-896 | a creation, failing anywhere and rolled back or not, leaves every write boundary without members or owned, by one owner at the end |
| `GroupProtocol.InviteKeepsOwner` | src/controllers/group_manager_controller_V3.cpp:1340-1593 | an invitation, failing anywhere, leaves every write boundary owned and adds no owner |
| `GroupProtocol.PendingKeepsMembers` | src/controllers/group_manager_controller_V3.cpp:1486-1520 | queueing for review changes no member row at any of its writes and feeds no count |
| `GroupProtocol.ReviewKeepsOwner` | src/controllers/group_manager_controller_V3.cpp:1595-1759 | a review, failing anywhere, leaves every write boundary owned and adds no owner |
| `GroupProtocol.KickKeepsOwner` | src/controllers/group_manager_controller_V3.cpp:453-572 | a kick, failing anywhere, leaves the group owned, whomever it lists, and adds no owner |
| `GroupProtocol.LeaveKeepsOwner` | src/controllers/group_manager_controller_V3.cpp:574-701 | a leave keeps an owner before, between and after promotion and delete; owners grow by at most one, and only when the delete fails |
| `GroupProtocol.AddMeKeepsOwner` | src/controllers/group_manager_controller_V3.cpp:1225-1338 | an add-me breaks ownership exactly when it succeeds in a group whose members have all left |
| `GroupProtocol.StepKeepsPlain` | src/controllers/group_manager_controller_V3.cpp:453-1759 | every handler, failing anywhere, leaves owners and plain members only, orphaned group or not |
| `GroupProtocol.EmptiedGroupRefilled` | src/controllers/group_manager_controller_V3.cpp:1266-1328 | the visitor who refills an emptied group becomes its only member, and the group has no owner |
| `GroupProtocol.LastOwnerLeavesRow` | src/controllers/group_manager_controller_V3.cpp:626-674 | the last owner leaves without a successor and the group row stays |
| `GroupEffects.CreateEffect` | src/controllers/group_manager_controller_V3.cpp:703-896 | for every failure set: a creation takes effect exactly when nobody, the creator included, is listed twice and its three writes go through; the group then is the creator as owner, everybody listed as plain member and nobody pending; otherwise no member is left, and the group row exactly when its deletion failed too |
| `GroupEffects.InviteTouches` | src/controllers/group_manager_controller_V3.cpp:1340-1593 | a refused invitation changes nothing; one that needs the owner's review changes no member; any other changes no pending entry |
| `GroupEffects.InviteQueues` | src/controllers/group_manager_controller_V3.cpp:1486-1520 | where the group confirms and the inviter is not the owner, exactly the invited without a role become pending under the inviter, up to the first failing write, and it succeeds exactly when there is none |
| `GroupEffects.InviteInserts` | src/controllers/group_manager_controller_V3.cpp:1521-1591 | elsewhere exactly the invited not in the group become plain members, with the exact condition of success, and a count is fed exactly when somebody joins |
| `GroupEffects.QueueingIs` | src/controllers/group_manager_controller_V3.cpp:1492-1513 | the queueing loop from any position |
| `GroupEffects.AddMeEffect` | src/controllers/group_manager_controller_V3.cpp:1225-1338 | exactly when an add-me succeeds, when it inserts the caller, and that it feeds a count exactly then |
| `GroupEffects.ReviewSucceeds` | src/controllers/group_manager_controller_V3.cpp:1609-1727 | exactly when a review takes effect; otherwise nothing changes and nobody is announced; only the owner of a V3 group sees a success |
| `GroupEffects.ReviewLeaves` | src/controllers/group_manager_controller_V3.cpp:1681-1755 | exactly the accepted newcomers join as plain members, exactly the listed leave the pending list unless that call failed, and a count is fed exactly when somebody joins |
| `GroupEffects.ReviewAnnounces` | src/controllers/group_manager_controller_V3.cpp:1698-1737 | a uid is announced under an inviter exactly when an accepted item of a newcomer names both |
| `GroupEffects.KickEffect` | src/controllers/group_manager_controller_V3.cpp:453-572 | exactly when a kick succeeds; then exactly the listed members are gone and a count is fed, otherwise nothing changes |
| `GroupEffects.LeaveEffect` | src/controllers/group_manager_controller_V3.cpp:574-701 | exactly when a leave succeeds; then exactly the leaver is gone and the heir of an owner is owner; a failed delete leaves the heir promoted, any other failure nothing |
| `GroupEffects.CreateRefusals` | src/controllers/group_manager_controller_V3.cpp:703-745 | whose fault a refused creation is |
| `GroupEffects.InviteRefusals` | src/controllers/group_manager_controller_V3.cpp:1366-1440 | the exact condition of each refusal of an invitation |
| `GroupEffects.AddMeRefusals` | src/controllers/group_manager_controller_V3.cpp:1225-1292 | the exact condition of the refusal of an add-me |
| `GroupEffects.ReviewRefusals` | src/controllers/group_manager_controller_V3.cpp:1603-1636 | a review of somebody else's group is a bad request |
| `GroupEffects.KickRefusals` | src/controllers/group_manager_controller_V3.cpp:453-530 | the exact condition of a kick that is a bad request |
| `GroupEffects.LeaveRefusals` | src/controllers/group_manager_controller_V3.cpp:585-654 | the exact condition of the refusals of a leave |
| `GroupReview.FedCountExact` | src/controllers/group_manager_controller_V3.cpp:574-1759 | leave, add-me, invite and review hand the key decision the exact number of members they leave behind |
| `GroupReview.InviteFedExact` | src/controllers/group_manager_controller_V3.cpp:1528-1591 | the count of an invitation is exact |
| `GroupReview.ReviewFedExact` | src/controllers/group_manager_controller_V3.cpp:1703-1739 | the count of a review is exact |
| `GroupReview.LeaveFedExact` | src/controllers/group_manager_controller_V3.cpp:640-695 | the count of a leave is exact |
| `GroupReview.AddMeFedExact` | src/controllers/group_manager_controller_V3.cpp:1294-1335 | the count of an add-me is exact |
| `GroupReview.KickFedCount` | src/controllers/group_manager_controller_V3.cpp:515-567 | the count of a kick is never above the truth, and exact if and only if the request lists members only and no one twice |
| `GroupReview.KickUndercounts` | src/controllers/group_manager_controller_V3.cpp:565-567 | a kick naming a stranger reports one member where two remain |
| `GroupReview.ReviewEffect` | src/controllers/group_manager_controller_V3.cpp:1652-1759 | an undisturbed review adds exactly the accepted as plain members, changes no role, and clears exactly the listed from the pending list |
| `GroupReview.ResubmittedReview` | src/controllers/group_manager_controller_V3.cpp:1652-1759 | a review failing at any storage call and resubmitted unchanged ends in the state of one that succeeded at once |
| `GroupReview.ReviewOfSettled` | src/controllers/group_manager_controller_V3.cpp:1652-1759 | a review with nobody left to insert only clears the pending list |
| `GroupReview.EachInsertAnnouncedOnce` | src/controllers/group_manager_controller_V3.cpp:1681-1739 | every inserted uid is announced under exactly one inviter and nobody else is announced |
| `GroupController.Controller.LeaveGroup` | src/controllers/group_manager_controller_V3.cpp:574-701 | the handler call by call leaves the rows, write boundaries, answer and count of the specified leave; stated directly: success removes exactly the leaver, an owned group stays owned, owners grow only with an error answer, and the count fed is the true one |
| `GroupController.Controller.KickGroupMember` | src/controllers/group_manager_controller_V3.cpp:453-572 | as above for kick, with its loop over the request; stated directly: success removes exactly the listed members on behalf of an owner, failure nothing |
| `GroupController.Controller.AddMe` | src/controllers/group_manager_controller_V3.cpp:1225-1338 | as above for add-me; stated directly: at most the caller is added, a member changes nothing, the count is true, and an owned group stays owned exactly when the call does not refill an emptied one |
| `GroupController.Controller.InviteGroupMember` | src/controllers/group_manager_controller_V3.cpp:1340-1593 | as above for invite; stated directly: an invitation that needs review changes no member, any other no pending entry |
| `GroupController.Controller.QueueForReview` | src/controllers/group_manager_controller_V3.cpp:1486-1520 | the pending loop: one write per invited user without a row, ended by the first failure |
| `GroupController.Controller.ReviewJoinRequest` | src/controllers/group_manager_controller_V3.cpp:1595-1759 | as above for review, with its announcements; stated directly: a success, a change or an announcement comes from the owner of a V3 group only |
| `GroupController.Controller.WriteReview` | src/controllers/group_manager_controller_V3.cpp:1703-1755 | the two writes of a review that is not refused |
| `GroupController.Controller.CreateGroup` | src/controllers/group_manager_controller_V3.cpp:703-896 | as above for create, with the roll-back of the group row; stated directly: the founding members of a success, and no member otherwise |
| `GroupController.MemberRows` | src/controllers/group_manager_controller_V3.cpp:826-845 | the loop that makes the rows of the listed members |
| `GroupController.CheckKick` | src/controllers/group_manager_entities.cpp:419-453 | the request check accepts exactly non-empty bounded lists of well-formed uids without the sender |
| `GroupController.CheckInvite` | src/controllers/group_manager_entities.cpp:693-742 | the request check accepts exactly non-empty bounded lists of distinct well-formed uids with bounded proofs, secrets and signatures |
| `GroupController.CheckMembers` | src/controllers/group_manager_entities.cpp:695-713 | its part on the members |
| `GroupController.CheckLengths` | src/controllers/group_manager_entities.cpp:721-740 | its loops over the texts |
| `GroupController.ReviewSets` | src/controllers/group_manager_controller_V3.cpp:1652-1664 | first review loop: everybody listed, and whether anybody is accepted |
| `GroupController.ReviewInserts` | src/controllers/group_manager_controller_V3.cpp:1681-1701 | second review loop: the rows to insert and whom to announce for which inviter |
| `KeyMode.Hysteresis` | src/controllers/group_manager_controller_V3.cpp:2008-2084 | over whole runs the key mode is decided by the side on which the count last left the band between powerGroupMin and powerGroupMax |
| `KeyMode.TurnsExactly` | src/controllers/group_manager_controller_V3.cpp:2031-2081 | exactly when one change turns the mode, either way |
| `KeyMode.DecidesExactly` | src/controllers/group_manager_controller_V3.cpp:2024-2084 | for every count and latest mode exactly which keys are requested, when none are, and when the last line would be reached |
| `KeyMode.ExitUnreachable` | src/controllers/group_manager_controller_V3.cpp:2031-2084 | the last line of the decision is unreachable in every run that starts from a stored mode |
| `KeyMode.StaysStored` | src/controllers/group_manager_controller_V3.cpp:2008-2084 | uploads that honour requests keep the mode one of the two known ones |
| `KeyMode.UndercountTurnsEarly` | src/controllers/group_manager_controller_V3.cpp:565-567 | the undercount of a kick can turn a group to per-member keys that its true size would not |
| `KeyMode.TurnsWithTrueCount` | src/controllers/group_manager_controller_V3.cpp:2008-2084 | over whole group runs, whatever kicks and failing calls, the mode turns to shared keys only in a step that leaves more than powerGroupMax members, and back only at powerGroupMin or fewer, after a failed read, or with a miscounting kick |
| `KeyMode.SharedKeysMeanLargeGroup` | src/controllers/group_manager_controller_V3.cpp:2008-2084 | a group whose keys are shared has had more than powerGroupMax members |
| `KeyMode.FedIsTrueExactly` | src/controllers/group_manager_controller_V3.cpp:565-567 | over whole group runs the counts fed are the true ones if and only if every kick that goes through lists members only, once |
| `KeyMode.TrueCountsDecide` | src/controllers/group_manager_controller_V3.cpp:2008-2084 | with such kicks the side on which the true member count last left the band decides the mode |
| `KeyMode.ChangesAreFed` | src/controllers/group_manager_controller_V3.cpp:453-1759 | every handler but a creation that changes who is in the group makes a key decision |
| `KeyMode.MembershipChangeRekeys` | src/controllers/group_manager_controller_V3.cpp:2008-2084 | in every run a step that changes who is in the group and leaves at most normalGroupRefreshKeysMax members requests new keys; when none are requested otherwise, exactly |
| `KeyRotation.RotationOverRuns` | src/controllers/group_manager_controller_V3.cpp:96-173 | under every interleaving accepted versions strictly increase, one client wins each version however many were told it was free, every switch message names a stored version, and none is sent twice |
| `KeyRotation.AnnouncedForGood` | src/controllers/group_manager_controller_V3.cpp:1883-1939 | what was accepted or announced stays so in every continuation, and announced versions stay stored |
| `KeyRotation.EveryVersionAnnounced` | src/controllers/group_manager_controller_V3.cpp:1921-1938 | over every run each accepted version of a live group was announced, or is being announced by its winner after so many failed tries, or failed exactly three times; without failures and with nobody at it the versions announced are those accepted |
| `KeyRotation.StepKeepsAccounts` | src/controllers/group_manager_controller_V3.cpp:1921-1938 | every step keeps that account |
| `KeyRotation.NoFailureNoneFailed` | src/controllers/group_manager_controller_V3.cpp:1921-1938 | failed tries are counted from failing publications only |
| `KeyRotation.StoredWasUploaded` | src/controllers/group_manager_controller_V3.cpp:96-150 | every stored version came with the creation, in per-member mode, or from a member whose upload of it passed the checks, in the mode it was checked with |
| `KeyRotation.CreationGoesLive` | src/controllers/group_manager_controller_V3.cpp:806-888 | an undisturbed creation goes live with version 0 for its creator to announce |
| `KeyRotation.StepsOfUploads` | src/controllers/group_manager_controller_V3.cpp:96-173 | in every live state: when a version is found free, when an upload passes, when it is accepted, and what is announced |
| `KeyRotation.RefusedOnlyIfOvertaken` | src/controllers/group_manager_controller_V3.cpp:986-1008 | a client told that its version is free loses the compare-and-set if and only if a version at least as high was accepted after it was told |
| `KeyRotation.RunKeepsInv` | src/controllers/group_manager_controller_V3.cpp:96-173 | the store holds exactly the accepted versions of a live group and every client waiting to announce has won its version |
| `KeyRotation.StepKeepsInv` | src/controllers/group_manager_controller_V3.cpp:986-1008 | each storage call of creation, preparation, upload and announcement keeps that invariant |
| `KeyRotation.InsertKeepsInv` | src/dao/group_keys.h:19-24 | compare-and-set insertion keeps versions increasing |
| `KeyRotation.PublishKeepsInv` | src/controllers/group_manager_controller_V3.cpp:1883-1939 | an announcement, or its failure and retry, keeps the invariant |
| `KeyRotation.CreationKeepsInv` | src/controllers/group_manager_controller_V3.cpp:806-888 | the creation steps and their roll-back keep the invariant |
| `KeyRotation.WinnersDiffer` | src/dao/group_keys.h:19-24 | two clients never hold the same accepted version |
| `DistributeKeys.ResubmissionConverges` | src/controllers/group_manager_controller.cpp:1569-1697 | an interrupted distribution resubmitted unchanged ends with the members and pending users of an uninterrupted one: old plus accepted, old minus listed |
| `DistributeKeys.ResubmissionExact` | src/controllers/group_manager_controller.cpp:1602-1696 | the rows agree down to the keys if and only if the group is encrypted, the first attempt stopped before its insert, or no inserted row had a group secret |
| `DistributeKeys.ResubmissionFillsWithheldKey` | src/controllers/group_manager_controller.cpp:1616-1636 | in an unencrypted group the second attempt stores the key the first one withheld |
| `DistributeKeys.KeysNeverOverwritten` | src/controllers/group_manager_controller.cpp:1628-1653 | whatever fails, no member is lost and no non-empty key of a member changes |
| `DistributeKeys.RowsAfter` | src/controllers/group_manager_controller.cpp:1606-1650 | both columns of everybody after an undisturbed review: members without an accepted item, members with one, and newcomers |
| `DistributeKeys.FirstKeyIs` | src/controllers/group_manager_controller.cpp:1631-1638 | of several items for a member the first that brings a group secret fills it |
| `DistributeKeys.FirstInfoIs` | src/controllers/group_manager_controller.cpp:1634-1638 | the same for the info secret |
| `DistributeKeys.SucceedsExactly` | src/controllers/group_manager_controller.cpp:1569-1697 | exactly when a review is answered with success, for every failure set |
| `DistributeKeys.Membership` | src/controllers/group_manager_controller.cpp:1655-1696 | who is a member and who is pending after any pattern of failures |
| `DistributeKeys.FilledAgain` | src/controllers/group_manager_controller.cpp:1628-1653 | an interrupted fill followed by a whole one is one whole fill |
| `DistributeKeys.AnnouncedOnce` | src/controllers/group_manager_controller.cpp:1656-1679 | each inserted uid is announced under exactly one inviter and nobody else is |
| `DistributeKeys.Partition` | src/controllers/group_manager_controller.cpp:1577-1588 | first loop: the rejected and the accepted uids |
| `DistributeKeys.Announce` | src/controllers/group_manager_controller.cpp:1669-1678 | the loop over the enter messages puts exactly the inserted uids on the delete list |
| `DistributeKeys.ListedParts` | src/controllers/group_manager_controller.cpp:1576-1690 | rejected, already present and inserted uids make up exactly the listed ones |
| `DistributeKeys.Store.UpdateIfEmpty` | src/controllers/group_manager_controller.cpp:1629-1638 | fills the columns that were empty when read and still are |
| `DistributeKeys.Store.FillAndCollect` | src/controllers/group_manager_controller.cpp:1602-1653 | the loop over the items: rows filled up to the first failing update, and what is collected to insert, announce and clear |
| `DistributeKeys.Store.DistributeKeys` | src/controllers/group_manager_controller.cpp:1569-1697 | the handler leaves exactly the specified rows, whatever fails, and announces exactly when its insertion ran |
| `Candidates.SelectionTerminatesExactly` | src/controllers/group_manager_controller.cpp:2624-2632 | the loop ends if and only if the count users from the start index, cyclically, are master devices; then after exactly count rounds with exactly those users |
| `Candidates.SelectKeyDistributionCandidates` | src/controllers/group_manager_controller.cpp:2609-2633 | all users if they are few enough, else that window of master devices |
| `Candidates.MastersAdvance` | src/controllers/group_manager_controller.cpp:2626-2632 | while master devices follow, each round takes one and moves on |
| `Candidates.StuckForGood` | src/controllers/group_manager_controller.cpp:2626-2632 | from the first other device on, no round changes anything |
| `Candidates.SlaveDeviceHangs` | src/controllers/group_manager_controller.cpp:2626-2632 | the draw falls on a slave device and no number of rounds selects anybody |
| `Candidates.WindowSize` | src/controllers/group_manager_controller.cpp:2626-2632 | distinct users make a window of full size |
| `KeysCache.CacheIsMap` | src/controllers/group_manager_controller_V3.cpp:2163-2186 | the cache is a map from pairs of group id and version to lists of records; a list with a record that does not parse reads as absent |
| `KeysCache.CacheKeyInjective` | src/controllers/group_manager_controller_V3.cpp:2188-2193 | different pairs never share a cache key |
| `KeysCache.CacheKeySample` | src/controllers/group_manager_controller_V3.cpp:2188-2193 | a cache key written out |
| `KeysCache.FramesRoundTrip` | src/controllers/group_manager_controller_V3.cpp:2195-2236 | reading the frames of a list of records gives the list back if and only if every record parses |
| `KeysCache.LittleEndian` | src/controllers/group_manager_controller_V3.cpp:2210-2210 | the byte order of a length |
| `KeysCache.Serialize` | src/controllers/group_manager_controller_V3.cpp:2195-2216 | refuses the empty list and else writes the frames in order |
| `KeysCache.Deserialize` | src/controllers/group_manager_controller_V3.cpp:2218-2236 | walks a buffer to its records, or fails at the first that does not parse, on exactly the buffers it can read without passing their end |
| `MurmurHash.SeedBijection` | src/crypto/murmurhash3.cpp:28-75 | for every key the hash is a bijection of the 32-bit seed, with its inverse |
| `MurmurHash.MurmurHash3` | src/crypto/murmurhash3.cpp:28-75 | the code computes the specified hash |
| `MurmurHash.HashBlocks` | src/crypto/murmurhash3.cpp:34-48 | the block loop |
| `MurmurHash.HashTail` | src/crypto/murmurhash3.cpp:50-65 | the tail |
| `MurmurHash.ReadTail` | src/crypto/murmurhash3.cpp:50-60 | the fall-through switch builds the little-endian word of the tail bytes |
| `MurmurHash.AbsorbInvertible` | src/crypto/murmurhash3.cpp:39-47 | each block step is undone on both sides |
| `MurmurHash.BlocksInvertible` | src/crypto/murmurhash3.cpp:38-48 | any number of block steps is undone on both sides |
| `MurmurHash.TailInvertible` | src/crypto/murmurhash3.cpp:50-65 | the tail undoes itself |
| `MurmurHash.FinalizeInvertible` | src/crypto/murmurhash3.cpp:67-74 | the finaliser is undone on both sides |
| `MurmurHash.ReferenceVectorTail` | tests/crypto/murmurhash3_test.cpp:11-16 | the two hashes listed there for a three-byte key |
| `MurmurHash.ReferenceVectorBlocks` | tests/crypto/murmurhash3_test.cpp:25-25 | the hash listed there for a key with blocks and a tail |
| `MurmurHash.GetHashes` | src/bloom/hash_algo.cpp:11-18 | the hash of the key under each scheduled seed, in order |
| `MurmurHash.AllHashesDistinct` | src/bloom/hash_algo.cpp:11-18 | under an odd root seed all hashes of a key, for any number of them up to 2^32, are pairwise distinct |
| `MurmurHash.HashesPairwiseDistinct` | src/bloom/hash_algo.cpp:14-16 | no two counters give a key one hash |
| `MurmurHash.SeedsDiffer` | src/bloom/hash_algo.cpp:14-16 | the schedule never repeats a seed |
| `MurmurHash.CountersDiffer` | src/bloom/hash_algo.cpp:14-16 | the 32-bit loop counter does not repeat within 2^32 rounds |
| `MurmurHash.EvenRootSeedRepeats` | src/bloom/hash_algo.cpp:14-16 | an even root seed does repeat |
| `BloomFilter.ProbesDistinct` | src/bloom/bloom_filters.cpp:5-17 | the five probes of a filter of algorithm 0 have distinct hashes |
| `BloomFilter.ConstructorsCoherent` | src/bloom/bloom_filters.cpp:9-24 | the constructors set truthful flags exactly for filters of at least one byte |
| `BloomFilter.ApplyCoherent` | src/bloom/bloom_filters.cpp:26-55 | insertion and reloading keep the flags truthful |
| `BloomFilter.ReachableAnswersExact` | src/bloom/bloom_filters.cpp:9-95 | in every state reached by constructors, insertions and reloads the shortcut answer equals the all-bits-set test |
| `BloomFilter.ShortcutsExact` | src/bloom/bloom_filters.cpp:57-82 | truthful flags change no answer |
| `BloomFilter.NoFalseNegatives` | src/bloom/bloom_filters.cpp:36-82 | every inserted key is contained whatever is inserted after it |
| `BloomFilter.InsertContains` | src/bloom/bloom_filters.cpp:36-55 | an insertion makes its key contained |
| `BloomFilter.InsertKeeps` | src/bloom/bloom_filters.cpp:36-55 | an insertion takes no key away |
| `BloomFilter.BitsAfterSetAll` | src/bloom/bloom_filters.cpp:48-52 | the bits set after an insertion are the old ones and the probed ones, and no others |
| `BloomFilter.BitLayout` | src/bloom/bloom_filters.cpp:49-52 | which bit of which byte a hash selects |
| `BloomFilter.RebuildPreserves` | src/bloom/bloom_filters.cpp:19-24 | exporting and rebuilding preserves every answer |
| `BloomFilter.EmptyContentRebuildsFull` | src/bloom/bloom_filters.cpp:84-95 | a filter of no bytes rebuilds as full; its answers survive exactly when it was |
| `BloomFilter.PatchedAnswerExact` | src/bloom/bloom_filters.cpp:97-108 | after a patch the answer for a key is right exactly when no stale flag is refuted for that key |
| `BloomFilter.PatchedFullStale` | src/bloom/bloom_filters.cpp:97-108 | a full filter patched to zero still contains every key |
| `BloomFilter.PatchedEmptyStale` | src/bloom/bloom_filters.cpp:97-108 | an empty filter patched to ones contains no key |
| `BloomFilter.PatchThenRebuild` | src/controllers/contact_controller.cpp:278-292 | storing the patched content and rebuilding from it repairs the flags |
| `BloomFilters.BloomFilters.constructor` | src/bloom/bloom_filters.cpp:9-17 | builds the zeroed filter of the given length |
| `BloomFilters.BloomFilters.FromContent` | src/bloom/bloom_filters.cpp:19-24 | builds the filter of the given content |
| `BloomFilters.BloomFilters.UpdateEmptyFull` | src/bloom/bloom_filters.cpp:84-95 | the loop computes both flags |
| `BloomFilters.BloomFilters.FromFiltersContent` | src/bloom/bloom_filters.cpp:26-34 | replaces content of the same size only |
| `BloomFilters.BloomFilters.Insert` | src/bloom/bloom_filters.cpp:36-55 | the loop sets exactly the probed bits unless a shortcut applies |
| `BloomFilters.BloomFilters.Contains` | src/bloom/bloom_filters.cpp:57-82 | the loop computes the answer |
| `BloomFilters.BloomFilters.Update` | src/bloom/bloom_filters.cpp:97-108 | writes exactly the listed bits within range and leaves the flags |
| `BloomFilters.PatchContent` | src/controllers/contact_controller.cpp:278-292 | the stored content is the old one with the last patch of every position applied |
| `BloomFilters.CheckBidirectionalRelationship` | src/controllers/group_manager_controller.cpp:2736-2777 | accepts exactly when the own filter holds every member and every member loads and holds the account; answers an error exactly when the first member to fail does not load, and hides every other refusal behind success |
| `BloomFilters.MutualFriendsAccepted` | src/controllers/group_manager_controller.cpp:2736-2777 | accounts whose filters were built by inserting each other are never rejected |
| `BloomFilters.ListedAccepted` | src/bloom/bloom_filters.cpp:110-115 | an inserted uid is accepted by the stored filter |
| `ContactParts.OneByteChangesHash` | src/crypto/fnv.cpp:5-17 | strings of equal length that differ in exactly one byte have different hashes |
| `ContactParts.FnvHash` | src/crypto/fnv.cpp:5-17 | the loop computes the hash |
| `ContactParts.ReferenceValues` | src/crypto/fnv.cpp:5-17 | the published values of the hash for two short strings |
| `ContactParts.StepsDiffer` | src/crypto/fnv.cpp:5-17 | one round separates any two inputs that differ in state or in byte but not both |
| `ContactParts.RestoreInParts` | src/controllers/contact_controller.cpp:140-188 | which answer is given exactly when, and the diff, for every request and store answer |
| `ContactParts.CompleteExactly` | src/controllers/contact_controller.cpp:171-176 | a store that returns requested parts only is taken as complete exactly when it has them all |
| `ContactParts.EditedPartReturned` | src/controllers/contact_controller.cpp:178-187 | a part one byte away from the client is returned, an equal one is not |
| `DispatchRegistry.NotifiedExactlyOnce` | src/dispatcher/dispatch_manager.cpp:87-184 | in every interleaving each dispatcher ever made is registered, or owed its notice by one thread, or notified exactly once |
| `DispatchRegistry.StaleUnsubscribeHarmless` | src/dispatcher/dispatch_manager.cpp:136-150 | an unsubscribe removes the registered dispatcher if and only if it carries its identity or the wildcard; with an older identity it changes nothing |
| `DispatchRegistry.CallEffects` | src/dispatcher/dispatch_manager.cpp:87-184 | in every state reached: what a subscription, a matching unsubscription and a kick do to the address, whom they owe a notice, whether of a kick, and that no other address is touched |
| `DispatchRegistry.NoticesTellWhy` | src/dispatcher/dispatch_manager.cpp:87-184 | every notice, in every run, is explained: not kicked means unsubscribed by identity or wildcard, kicked means displaced or kicked at its address |
| `DispatchRegistry.StepConserves` | src/dispatcher/dispatch_manager.cpp:87-184 | subscribing makes one dispatcher and no step makes, loses or doubles another |
| `DispatchRegistry.RunKeepsInv` | src/dispatcher/dispatch_manager.cpp:87-184 | every registered dispatcher stands at its own address, and each made dispatcher is counted once |
| `DispatchRegistry.Registry.ReplaceDispatcher` | src/dispatcher/dispatch_manager.cpp:340-351 | registers the new dispatcher and returns the one it displaced |
| `DispatchRegistry.Registry.DelDispatcher` | src/dispatcher/dispatch_manager.cpp:353-366 | removes the dispatcher exactly when the identity matches or is the wildcard |
| `WakeupQueue.RunSound` | metrics_sdk/include/concurrent_queue.h:30-98 | in every run what was consumed followed by the queue is what was enqueued |
| `WakeupQueue.QueueSteps` | metrics_sdk/include/concurrent_queue.h:30-98 | in every run what an enqueuing, an arriving or returning consumer and a try-pop do: what is appended, whom it wakes, what is taken, who sleeps |
| `WakeupQueue.WakeupsOverRuns` | src/dispatcher/dispatch_manager.cpp:249-281 | a consumer asleep beside a non-empty queue always has a wakeup on its way |
| `WakeupQueue.WakeupsSafeExactly` | metrics_sdk/include/concurrent_queue.h:80-86 | popping one entry at a time, that holds in every run if and only if at most one consumer waits |
| `WakeupQueue.SecondConsumerStranded` | metrics_sdk/include/concurrent_queue.h:80-86 | the run that strands a second consumer |
| `WakeupQueue.ConcurrentQueue.TryEnqueue` | metrics_sdk/include/concurrent_queue.h:44-56 | drops the entry exactly when the bound is reached and notifies exactly when the queue was empty |
| `WakeupQueue.ConcurrentQueue.Enqueue` | metrics_sdk/include/concurrent_queue.h:59-67 | appends, and notifies exactly when the queue was empty |
| `WakeupQueue.ConcurrentQueue.TryPop` | metrics_sdk/include/concurrent_queue.h:89-98 | takes the front entry or reports emptiness |
| `Throttle.AdmittedBounded` | metrics_sdk/src/throttle_control.cpp:56-101 | for any threads and wakeups the sizes admitted since the last refill never exceed the threshold |
| `Throttle.AdmittedExactly` | metrics_sdk/src/throttle_control.cpp:56-101 | in every run a caller, at its request and at every wakeup, is admitted exactly when its size fits in what the period has left, and a refill opens a period at the threshold |
| `Throttle.RefusalIsFinal` | metrics_sdk/src/throttle_control.cpp:74-101 | after one refusal nothing is admitted until the next refill |
| `Throttle.OversizeNeverAdmitted` | metrics_sdk/src/throttle_control.cpp:74-101 | a request above the threshold is admitted in no run |
| `Throttle.QuotaFits` | metrics_sdk/src/throttle_control.cpp:74-101 | the 64-bit quota does not overflow within 2^31 subtractions of one period |
| `Throttle.RunKeepsInv` | metrics_sdk/src/throttle_control.cpp:37-101 | the quota is the threshold less the sizes admitted until the first refusal, and negative after it |
| `Throttle.StepStaysRefused` | metrics_sdk/src/throttle_control.cpp:74-101 | no caller, first or woken, is admitted in a refused period |
| `Throttle.ThrottleControl.CheckQuota` | metrics_sdk/src/throttle_control.cpp:74-101 | the caller is admitted at the first quota it finds that holds its size, having lowered every earlier one |
| `MessageSend.ValidateCompleteDeviceList` | src/controllers/message_controller.cpp:335-382 | missing and extra devices are the two exact set differences, in order; the single noise message is judged by sync and own device |
| `MessageSend.CollectDevices` | src/controllers/message_controller.cpp:353-371 | the device loop |
| `MessageSend.CollectExtra` | src/controllers/message_controller.cpp:373-379 | the loop over the ordered targets |
| `MessageSend.MissingAre` | src/controllers/message_controller.cpp:353-371 | the missing list holds exactly the expected devices without a message |
| `MessageSend.ValidateRegistrationIds` | src/controllers/message_controller.cpp:384-400 | the stale devices in message order; passes exactly when no message is stale |
| `MessageSend.StaleExactly` | src/controllers/message_controller.cpp:384-398 | a message is stale exactly when it names a positive registration other than its device's |
| `MessageSend.ExpectedDevices` | src/controllers/message_controller.cpp:353-362 | a device is expected exactly when it is active and not the sender's own on a sync |
| `MessageSend.LookupsDefined` | src/controllers/message_controller.cpp:154-172 | after the device check every lookup is defined, if and only if a single noise message finds the authenticated device |
| `MessageSend.GetDevice` | src/store/accounts_manager.cpp:110-118 | a device with that id, absent only when none has it |
| `MessageSend.EncryptSources` | src/controllers/message_controller.cpp:154-168 | succeeds exactly when every encryption does, keeping for each device its last one |
| `MessageSend.SendAll` | src/controllers/message_controller.cpp:170-173 | every message goes to its device with that device's source |
| `MessageSend.SendMessage` | src/controllers/message_controller.cpp:124-176 | which answer is given exactly when, whatever the stores do, and that nothing is sent unless both checks pass and every source is encrypted |
| `MessageSend.SendReaches` | src/controllers/message_controller.cpp:170-215 | a success addresses exactly the expected devices, or the own one by noise; every message is published, stored or unheard noise if and only if none but noise goes unpublished to a failing store |
| `MessageSend.DevicesReached` | src/controllers/message_controller.cpp:170-215 | the devices a success really reaches are exactly the targets of the messages published, or not noise and stored |
| `MessageSend.LostUnderSuccess` | src/controllers/message_controller.cpp:172-211 | one offline device whose store fails: the answer is success and the message is lost |
| `MessageSend.NoiseToUnlistedDevice` | src/controllers/message_controller.cpp:340-347 | a noise message from a device the account does not list passes the checks and its lookup finds nothing |
| `SystemMessages.PipelineExact` | src/controllers/system_controller.cpp:181-197 | whatever permutations the sorts choose within their promise, the result holds one message per activity, of greatest id, in strictly rising id order |
| `SystemMessages.GetSystemMsgs` | src/controllers/system_controller.cpp:181-197 | the pipeline delivers that on every list without ties whose kept messages have distinct ids; nothing is promised elsewhere |
| `SystemMessages.UniqueInPlace` | src/controllers/system_controller.cpp:190-194 | unique and erase keep the first of each run of an activity, in place |
| `SystemMessages.UniqueIsBest` | src/controllers/system_controller.cpp:181-194 | in first order the kept message has the greatest id of its activity |
| `SystemMessages.DefinedExactly` | src/controllers/system_controller.cpp:181-197 | both sorts can keep their promise if and only if no two messages share activity and id and no two activities their greatest id |
| `SystemMessages.DistinctIdsDefined` | src/controllers/system_controller.cpp:181-197 | distinct ids are enough |
| `SystemMessages.AnswerUnique` | src/controllers/system_controller.cpp:181-197 | without ties the answer is determined |
| `SystemMessages.SortableExactly` | src/controllers/system_controller.cpp:181-195 | some permutation keeps the promise of a sort by the first comparator if and only if there are no ties, by the second if and only if ids are distinct |
| `SystemMessages.ComparatorsAre` | src/controllers/system_controller.cpp:181-195 | both comparators are total orders that put a message before itself, where a sort asks for strict ones |
| `SystemMessages.SharedMessageUndefined` | src/controllers/system_controller.cpp:152-188 | a message stored for the user and for everybody leaves the first sort nothing to promise |
| `SystemMessages.SharedIdUndefined` | src/controllers/system_controller.cpp:195-195 | two activities with one greatest id leave the second sort nothing to promise |
| `SystemMessages.StdSort` | src/controllers/system_controller.cpp:181-195 | the promise of the sort where it can be kept |
| `OpaqueStore.NumeralRoundTrip` | src/crypto/any_base.cpp:18-58 | decoding inverts encoding on every 64-bit number in every base from 2 to 62 |
| `OpaqueStore.NumeralInjective` | src/crypto/any_base.cpp:18-34 | distinct numbers have distinct encodings |
| `OpaqueStore.NumeralSamples` | src/crypto/any_base.cpp:6-34 | the order of symbols and digits at sample numbers |
| `OpaqueStore.Encode` | src/crypto/any_base.cpp:18-34 | refuses bases above 62 and else computes the numeral, on exactly the calls that end without dividing by zero or reading past the symbols |
| `OpaqueStore.EncodableExactly` | src/crypto/any_base.cpp:18-34 | those are the calls whose every digit has a symbol: all of them from base 2 to base 62 |
| `OpaqueStore.Decode` | src/crypto/any_base.cpp:36-58 | refuses bases above 62 and foreign characters and else computes the value modulo 2^64 |
| `OpaqueStore.KeysStayFaithful` | src/controllers/opaque_data_controller.cpp:22-81 | over every run each key handed out reads back its own content and decodes to an index with its hash as low half, and no key is handed out twice |
| `OpaqueStore.AnswerFresh` | src/controllers/opaque_data_controller.cpp:22-66 | a key handed out was not in the store and decodes to an index whose low 32 bits are the content hash |
| `OpaqueStore.IndexAt` | src/controllers/opaque_data_controller.cpp:38-51 | every index tried is a 64-bit number with the hash as its low half |
| `OpaqueStore.PlaceFresh` | src/controllers/opaque_data_controller.cpp:43-52 | a key handed out was not in the store and is one of the indices tried |
| `OpaqueStore.PlaceExactly` | src/controllers/opaque_data_controller.cpp:42-62 | the content is stored under the first free of the ten keys tried if no call up to there fails, and collisions are reported exactly when all ten are taken |
| `OpaqueStore.Controller.SetOpaqueData` | src/controllers/opaque_data_controller.cpp:22-66 | refuses content that is too long or not base64, else stores under the key of the specified try, or nothing |
| `OpaqueStore.Controller.PlaceContent` | src/controllers/opaque_data_controller.cpp:43-62 | the collision loop makes the specified tries |
| `OpaqueStore.Controller.GetOpaqueData` | src/controllers/opaque_data_controller.cpp:68-81 | reads the content back or reports its absence |

## Left out

- HTTP routing, JSON entities, metrics markers and logging: no state to speak about.
- Redis, Postgres, Pegasus, push services and the RPC clients under `src/dao/rpc_impl`: replaced by abstract rows with the contracts above.
- Signatures, base64, SHA-1, HMAC, AES, gzip and random numbers: opaque answers or parameters.
- The checks of a group handler that touch none of the modelled rows (limiters, friendship, signatures, group name, proof and secret lengths) are one `gate` answer; where several checks would refuse a request at once, the order of their statuses is not modelled.
- Overlapping group handlers: runs are sequences of whole handlers, each cut anywhere by failures; one group at a time.
- Which owner row the store picks for a group with several owners is a parameter of the request.
- `onGroupJoinRequstV3` and `onUpdateGroupInfoV3` appear as arbitrary changes of the group row and the pending list.
- The older group handlers beside `distributeKeys` (`onLeaveGroup`, `onKickGroupMember`, `onInviteGroupMember`): the V3 forms carry the harder properties.
- The numbering of member roles and the value of the master device id are not part of this model's sources; the order of roles and the value 1 are assumed. Subscribers are counted apart from members.
- Group messages, acknowledgements and nicknames of a member row, and the messages that tell a member of a filled secret: they take no part in the properties.
- Whether a client honours a request for new keys is an input of `KeyMode`.
- MurmurHash.MurmurHash3: keys of 8 GiB and more, where the block count of the source overflows its `int`.
- MurmurHash.GetHashes: the count of hashes is a 32-bit number in the source, hence its bound.
- BloomFilters.BloomFilters.Insert: a filter without bytes divides by zero in the source unless a shortcut returns first; the requirement excludes that call only.
- OpaqueStore.Encode: the calls with base 0, with base 1 and a positive number, and with a negative base and a digit past the symbol table, which divide by zero, do not end or read out of bounds in the source.
- KeysCache.Deserialize: a buffer whose frames overrun it before a record fails to parse is read past its end in the source; the protobuf encoding of one record is a byte string here.
- Candidates.SelectKeyDistributionCandidates: requires the exact condition under which the source's loop ends.
- DispatchRegistry: the Redis subscription, the message types of the dispatch loop and reuse of a freed dispatcher's memory address as an identity.
- WakeupQueue: shutdown of the dispatch loop by its flag.
- Throttle: the 60-second period; refills come at arbitrary times.
- MessageSend.SendMessage: relay and size checks, the stranger filter, the upgrade answer, envelopes, and the offline push that may follow a stored message; whether a publication reaches a subscriber and whether a store fails are inputs; `requires` that a sync comes from a listed device, as `src/auth/authenticator.cpp` ensures.
- SystemMessages.GetSystemMsgs: expiry and parsing of stored messages, which decide the input list. Both comparators hold of a message and itself, so a sort that compared an element with itself could fail on any list; the promise of `std::sort` is taken to hold wherever some permutation keeps it.
- OpaqueStore.Controller.SetOpaqueData: whether a content is well-formed base64 is an input.
