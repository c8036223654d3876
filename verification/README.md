# Verification of cheesecloth's membership core

A Dafny model of what decides who belongs to a cheesecloth mesh, which address each
member has, and how nodes come to agree on it, with proofs of what that logic promises.
Nothing here is executed; `dafny verify dfyconfig.toml` checks the whole project.

## What is modelled

- **The trust set** (`TrustStore`, `TrustSet`): a pinned root and at most one admission
  and one revocation per identity. `TrustStore.MemberAt` is the recursive rule with its
  cycle guard on (identity, time); `TrustSet.Set` is the object whose maps and cache are
  updated in place. The rule is related to a replay of the records in order of time
  (`TrustReplay`), the effect of one more record on it is stated exactly (`TrustEffects`), as
  is when revocations by members count (`TrustRevocations`),
  records are merged in any order and flooded through a network (`TrustConvergence`),
  gossiped among any number of nodes (`Gossip`), and the lock-free cache is a step system
  of any number of threads (`TrustCache`).
- **Slots and addresses** (`Overlay`, `Slots`, `ClusterNode`): bitwise address arithmetic
  in 32 and 64-bit words, slot allocation over whole runs, conflicts, and the checks a
  peer and a restart must pass.
- **Protocols** (`Enrolment`, `Tokens`, `Dialing`, `SingleFlight`, `Publisher`): the two
  sides of the enrolment exchange with the token store, a server answering anyone in any
  order, the tie-break between
  simultaneous dials, single-flight dialling and the snapshot publisher, the last three
  over every interleaving of their steps.
- **Bytes and whole-state reconcilers** (`Wire`, `TrustRecords`, `Routes`, `EtcHosts`):
  the canonical encoding and everything signed with it, the assignment of advertised
  networks, the set-up of the interface and its routes, the managed block of the hosts file.

Signatures, hash, key derivation and HMAC are function values. Nothing is assumed of them
except where a lemma says so: `Honest` (what a key signs verifies), `CollisionFree`
(equal MACs under one key are of equal messages) and `DerivesApart` (equal keys are of
equal tokens and nonces). Clocks, random bytes, the order in which
a Go map is walked and the scheduler are parameters or free choices.

## Where the code and its documentation differ

The model follows the code.

- `internal/trust/set.go:119-121` says an admitter must have been a member when it signed.
  The code never compares the admitter's own admission with that time, so one that signs
  first and is admitted later vouches all the same (`TrustReplay.EarlySignerVouches`).
  `TrustReplay.ReplayAgreesIff` says exactly when this matters where nothing is revoked,
  and `TrustReplay.ReplayEquivalence` gives a condition with revocations.
- `docs/membership.md:57-59` says a revocation by a member ends its subject's membership. It
  does wherever asking about the subject or the revoker never leads back to a question
  already open (`TrustRevocations.RevocationByMemberCounts`), so on all chronological records
  (`TrustRevocations.ChronologicalRevocationCounts`). Where it does lead back the guard's
  false can void a revocation by a member that stands. In a ring of revocations who stands
  is decided by counting (`TrustRevocations.RingOfRevocations`); a ring of one second, before
  the last there is, keeps everybody if it is even and nobody if it is odd
  (`TrustRevocations.OneSecondRing`). Neither
  a tie nor a revocation back is needed: a member that the subject admits afterwards, and
  that had revoked the revoker before, is enough (`TrustRevocations.UntiedRevokerStays`).
- `internal/trust/set.go:62-65` lets a newer admission replace an older one whoever signed
  it, and that can take membership away: an identity admitted again by its own admittee
  loses its chain to the root, and the admittee with it
  (`TrustEffects.ReadmissionByOwnAdmittee`). With nothing revoked everyone stays exactly
  when the new admitter has a chain that avoids the subject
  (`TrustEffects.ReadmissionKeepsMembersIff`).
- `internal/enrol/server.go:24-25` says admitting records the admission. When the joiner's
  stored admission is as new as the clock, `internal/cluster/cluster.go:234-239` ignores that
  the set refused the new one, and broadcasts and returns an admission that is stored
  nowhere (`Slots.AdmissionIsStoredIff`, `ClusterNode.Cluster.Admit`).
- `docs/membership.md:71-72` calls push/pull a union merge. Of two different revocations of
  one identity, or two admissions of one second, each side keeps its own, and a push/pull
  leaves the two apart (`TrustConvergence.PushPullConvergesIff`). Over any number of nodes
  only something newer can settle it, which for revocations does not exist
  (`Gossip.MeshConvergesIff`).
- `internal/cluster/transport.go:451-454` says that serialising dials keeps the tie-break
  from seeing two of a node's own connections. The lookup is not repeated once the lock is
  taken, so a second dial can start over a live connection of one's own
  (`SingleFlight.SecondDialOverLiveConnection`), as can happen exactly when an address has
  two callers (`SingleFlight.NoSecondDialIff`), and two are enough for the two sides to
  close one each (`Dialing.TwoPreferredDialsCanCollide`, `Dialing.TieBreakIsSafeIff`).
- `internal/wire/wire.go:3-6` says no field boundary is ambiguous; the 32-bit length makes
  that false from 2^32 bytes on (`Wire.LongFieldCollides`, `Wire.DecodableIff`).

## Model

| member | source | states |
|---|---|---|
| `TrustStore.Frame` | internal/trust/set.go:178-201 | Two stores that agree about a question and about every question their records raise answer it alike, guard included |
| `TrustStore.AskedLate` | internal/trust/set.go:162-201 | Once all records are in the past, the answer depends neither on when it is asked nor on late questions already open |
| `TrustStore.ForgetLateQuestions` | internal/trust/set.go:186-191 | The cycle guard blocks only questions that some record raises |
| `TrustStore.AcceptedIffSigned` | internal/trust/records.go:74-93 | A record is accepted exactly when it has a name and a slot, its signer's key verifies its bytes, and it is not the self-admission of anyone but the root; a revocation exactly when its revoker's key verifies its bytes |
| `TrustStore.SoundStoresAreSigned` | internal/trust/set.go:51-84 | Every admission and revocation a set holds verifies under its signer's key |
| `TrustReplay.GuardNeverFires` | internal/trust/set.go:178-201 | On chronological records the guarded walk equals the walk without any guard, whatever later questions are open |
| `TrustReplay.SignerIsSettled` | internal/trust/set.go:178-201 | When a record comes up in the replay, its signer is on the roster exactly if the walk calls it a member at that time |
| `TrustReplay.ReplayMirrors` | internal/trust/set.go:162-201 | After every prefix of the timeline the roster and the barred identities are what the walk says of the records so far |
| `TrustReplay.ReplayEquivalence` | internal/trust/set.go:119-141 | On chronological records the members are those left standing when the records are replayed in order of time from the root: members admit, and a member or the subject bars the subject for good |
| `TrustReplay.ReplayAgreesIff` | internal/trust/set.go:196-200 | Without revocations the replay's members are members, and walk and replay agree on an identity exactly when its chain of admissions, if any, goes back in time at each link |
| `TrustReplay.EarlySignerVouches` | internal/trust/set.go:196-200 | A signer admitted after it signed makes its subject a member although the replay turns it away |
| `TrustReplay.TimelineExists` | internal/trust/set.go:103-117 | Every store has a timeline, so the replay theorems are never about nothing |
| `TrustEffects.RevocationEffect` | internal/trust/set.go:70-84 | A first revocation dated after all records changes no membership but its subject's, the root's included, and the subject stays only if it was a member and the revoker is neither itself nor a member: nothing cascades |
| `TrustEffects.AdmissionEffect` | internal/trust/set.go:53-68 | An admission of an identity that has signed nothing decides that identity alone: unless revoked it is a member exactly if its admitter was one at the time |
| `TrustEffects.MembersAreVouchedFor` | internal/trust/set.go:178-201 | On every store and under every guard, a member has a chain of admissions up to the root |
| `TrustEffects.WithoutRevocationsMembershipIsReachability` | internal/trust/set.go:178-201 | With nothing revoked the members are exactly the identities a chain of admissions connects to the root, cycles notwithstanding |
| `TrustEffects.UnrevokedChainStands` | internal/trust/set.go:178-201 | An identity with a chain of admissions of unrevoked identities is a member at every time, whatever questions about others are open |
| `TrustEffects.ReadmissionEffect` | internal/trust/set.go:62-65 | With nothing revoked, what any admission that is kept does to anyone, whatever its subject signed before: members are those with a chain that avoids the subject, and those linked to the subject if the new admitter has such a chain |
| `TrustEffects.ReadmissionKeepsMembersIff` | internal/trust/set.go:62-65 | With nothing revoked, a newer admission of a member takes membership from nobody exactly when its admitter has a chain to the root that does not pass through that member |
| `TrustEffects.ReadmissionByOwnAdmittee` | internal/trust/set.go:62-65 | A newer admission signed by the subject's own admittee ends the membership of both |
| `TrustEffects.ReadmissionDisturbsNobody` | internal/trust/set.go:62-65 | Whatever revocations there are of others: if the subject is not revoked and its old admitter and the new one each have an unrevoked chain without it, a newer admission changes nobody's membership |
| `TrustRevocations.GuardIsIdle` | internal/trust/set.go:186-191 | Where no question comes back to itself the guard makes no difference, whatever is open above |
| `TrustRevocations.RevocationByMemberCounts` | internal/trust/set.go:178-201 | Where no question about the subject or its revoker comes back to itself, a revocation by a member or by the subject ends the subject's membership, whatever the rest of the records do |
| `TrustRevocations.ChronologicalIsAcyclic` | internal/trust/set.go:168-171 | On chronological records no question comes back to itself |
| `TrustRevocations.ChronologicalRevocationCounts` | internal/trust/set.go:119-121 | On chronological records a revocation by a member or by the subject ends the subject's membership |
| `TrustRevocations.RingOfRevocations` | internal/trust/set.go:178-201 | In any ring of identities vouched for apart from it, each revoked by the next at any times, one stands exactly when the count to the first revoked later than the one before it, or all around, is even; at the last second exactly when it is odd |
| `TrustRevocations.OneSecondRing` | internal/trust/set.go:178-201 | Of a ring revoked in one second everybody stands if it is even and nobody if it is odd, the other way round at the last second |
| `TrustRevocations.RingStaysIff` | internal/trust/set.go:178-201 | Everyone in a ring stays exactly when all revocations are of one second and the ring is even, or of the last second and it is odd |
| `TrustRevocations.MutualRevocation` | internal/trust/set.go:186-200 | The ring of two: both stay exactly when they revoke each other in one second before the last; otherwise the earlier revocation stands |
| `TrustRevocations.MutualRevocationWithRoot` | internal/trust/set.go:173-185 | When one of two that revoke each other is the root, the root stays exactly when the revocation of the other is not the later one, and the other exactly when the root falls |
| `TrustRevocations.UntiedRevokerStays` | internal/trust/set.go:178-201 | A member and the member that revoked it both stay, with all times different and nobody revoking back, when somebody the subject admits afterwards had revoked the revoker |
| `TrustConvergence.AddingExtendsSummary` | internal/trust/set.go:53-84 | Adding a record keeps the store the summary, newest admission and one revocation per identity, of everything accepted so far |
| `TrustConvergence.MergeSummarises` | internal/trust/set.go:86-101 | Merging any sequence leaves the summary of what was held and what was accepted |
| `TrustConvergence.SummaryIsUnique` | internal/trust/set.go:53-84 | A pool of records without rivals has one summary |
| `TrustConvergence.OrderMattersIff` | internal/trust/set.go:62-64 | The order of two records matters exactly when both are acceptable, would be kept, and are different revocations of one identity or admissions of one second |
| `TrustConvergence.OrderIsIrrelevantIff` | internal/trust/set.go:53-101 | All orders and repetitions of some records lead to one store exactly when no two conflict, or something newer settles every conflict |
| `TrustConvergence.RecordsRebuildTheStore` | internal/trust/set.go:86-117 | A set's records, in any order, rebuild it in a fresh set with the same root |
| `TrustConvergence.PushPullConvergesIff` | internal/cluster/cluster.go:544-565 | After a two-way push/pull both sides are equal exactly when they held no rival records |
| `TrustConvergence.KeptThroughMerge` | internal/trust/set.go:62-65 | A stored record survives any merge that brings nothing newer for its identity |
| `TrustConvergence.AbsorbedIff` | internal/trust/set.go:62-64 | A record changes nothing exactly when it is refused, not newer, or its subject is already revoked |
| `TrustConvergence.MergeIsIdempotent` | internal/trust/set.go:86-101 | Merging the same records again, conflicting or not, changes nothing |
| `TrustConvergence.MergeKeepsSigned` | internal/trust/set.go:86-101 | Whatever records are merged, forged ones among them, every record stored afterwards verifies under its signer's key |
| `TrustConvergence.ForgeriesAreNotStored` | internal/trust/set.go:51-101 | A record no signature of its signer verifies for changes nothing, alone or among others |
| `TrustConvergence.FloodingUsesUpPending` | internal/cluster/cluster.go:499-537 | Each re-broadcast uses up a (node, record) pair that was still acceptable, and no delivery brings one back |
| `TrustConvergence.FloodingTerminates` | internal/cluster/cluster.go:499-537 | Over N nodes and a pool of records no run, with loss, repetition, reordering and push/pulls, re-broadcasts more than N times the pool's size |
| `TrustConvergence.PassedOnIffPending` | internal/cluster/cluster.go:499-537 | After any run a broadcast is passed on exactly when its record was still acceptable to the node it reaches, is no longer afterwards, and changes no other node |
| `TrustConvergence.NetworkStaysSigned` | internal/cluster/cluster.go:499-565 | Over any run of broadcasts and push/pulls, whatever is delivered to whom, no set ever holds a forgery |
| `Gossip.MeshConvergesIff` | internal/cluster/cluster.go:499-565 | However many nodes share, broadcast and receive, with loss, delay, repetition and reordering: once every initial record has reached everyone, by broadcast or in a whole set, all sets are equal exactly when something newer among those records stands against any rivals |
| `Gossip.RivalsPartMesh` | internal/trust/set.go:62-80 | Where nothing newer stands against rivals, no run whatever makes all sets equal |
| `Gossip.UnopposedStays` | internal/trust/set.go:62-64 | In every run a record nothing newer stands against is kept by the node that started with it |
| `Gossip.RunsStayOk` | internal/cluster/cluster.go:499-565 | In every run each set is what its node makes of some of the initial records, all it has heard of among them |
| `Gossip.EveryoneCanHear` | internal/cluster/cluster.go:544-565 | From any start there is a run after which every record has reached everyone |
| `Gossip.BroadcastIsHeard` | internal/cluster/cluster.go:499-537 | A broadcast that everyone receives has reached everyone |
| `Gossip.RunsStaySigned` | internal/cluster/cluster.go:499-565 | After any run every record of every node verifies under its signer's key |
| `TrustCache.StepKeepsInv` | internal/trust/set.go:43-84 | Every atomic step of every thread keeps the cache invariant: an entry was right at some version no older than its map |
| `TrustCache.CallsLinearise` | internal/trust/set.go:122-136 | In every interleaving a call of Valid returns the walk's answer for the records in force at some moment between its start and return, and an addition takes effect at such a moment |
| `TrustCache.CacheHoldsMembersOnly` | internal/trust/set.go:43-46 | Whenever no writer holds the lock, everything in the current cache map is a member under the current records |
| `TrustCache.OldMapsAreBounded` | internal/trust/set.go:122-128 | An entry of a replaced map may be stale but was right at some version since that map came into force |
| `TrustCache.ValidAlone` | internal/trust/set.go:122-136 | From any reachable state without a writer, a call of Valid nobody interrupts returns the walk's answer within seven steps and remembers exactly a positive one |
| `TrustCache.AddAlone` | internal/trust/set.go:53-84 | From any reachable state without readers or writer, an addition nobody interrupts is over within five steps, the record stored as the rule says, and the current map empty if anything changed |
| `TrustSet.Set.AddAdmission` | internal/trust/set.go:51-68 | Accepted exactly when named, slotted, signed by its admitter and not a self-admission of anyone but the root; then the newest per identity is kept, true is reported exactly when the contents change, and the cache stays sound |
| `TrustSet.Set.AddRevocation` | internal/trust/set.go:70-84 | Accepted exactly when signed by its revoker; the first of an identity is kept, and true is reported exactly when the contents change |
| `TrustSet.Set.Merge` | internal/trust/set.go:86-101 | Both loops together are the merge of all records in order, and the count is of those that changed something |
| `TrustSet.NoChangesIff` | internal/trust/set.go:86-101 | Merge reports no change exactly when every record was absorbed, and then nothing changed |
| `TrustSet.ChangesAreTheSteps` | internal/trust/set.go:86-101 | Merge's count is the number of records that change the store when their turn comes, each once |
| `TrustSet.Set.Records` | internal/trust/set.go:103-117 | Returns the store's one listing |
| `TrustSet.ListingIsUnique` | internal/trust/set.go:103-117 | The order is deterministic: a store has one listing of every record once, each kind by identity |
| `TrustSet.ListingGrows` | internal/trust/set.go:103-117 | An admission of a new identity goes into the listing at its place by identity and moves nothing else |
| `TrustSet.InsertBySorts` | internal/trust/set.go:114-115 | Sorting by identity keeps exactly the elements and puts them in byte order |
| `TrustSet.Set.ValidAt` | internal/trust/set.go:168-201 | The walk over the shared visiting map computes the membership rule, leaves the map as it found it, and ends on every record set: the open questions use up those the records can raise, a root step apart |
| `TrustSet.Set.Valid` | internal/trust/set.go:119-136 | The cached answer is the walk's; only identities found valid are cached |
| `TrustSet.Set.ByName` | internal/trust/set.go:211-223 | Finds a record exactly when one member alone has the name, and then that one's |
| `TrustSet.Set.FirstUnused` | internal/trust/set.go:243-247 | One pass in wrapping 64-bit arithmetic finds the least unused slot for every limit, with at most one probe more than there are used slots |
| `TrustSet.Set.FreeHost` | internal/trust/set.go:228-250 | Two passes over collected slots give the free slot, in at most twice (admissions + 1) probes |
| `TrustSet.Set.HostConflict` | internal/trust/set.go:252-271 | Reports a conflict exactly when another member with that slot was admitted earlier, or in the same second with a smaller identity, and returns the admission of one such |
| `TrustSet.Set.NameTaken` | internal/trust/set.go:273-283 | True exactly when a member other than the exception has the name |
| `Slots.LeastUnusedIsLeast` | internal/trust/set.go:243-247 | The search finds the least unused slot in range, or all are used |
| `Slots.FreeSlotIsSpare` | internal/trust/set.go:228-250 | No slot is found exactly when members fill 1..limit; a slot found is held by no member, and one some record uses is reused only when records use them all |
| `Slots.SlotsInUseAreFew` | internal/trust/set.go:234-241 | At most as many slots are in use as there are admissions, which bounds the passes |
| `Slots.OneOfTwoYields` | internal/trust/set.go:252-271 | Of two members with one slot at least one yields |
| `Slots.LaterYields` | internal/trust/set.go:252-271 | An identity yields exactly when another member with its slot was admitted earlier, or in the same second with smaller bytes |
| `Slots.AddressesAreUnique` | internal/cluster/cluster.go:258-274 | On any records no two identities are assigned one address |
| `Slots.HeldSlotsAreGrantedOnce` | internal/cluster/cluster.go:258-274 | Every slot of the network some member holds is granted to exactly one: the earliest admission, then the smallest identity; all others are refused for the conflict |
| `Slots.LaterClaimTakesNothing` | internal/trust/set.go:252-254 | An identity with an address keeps it when another that has signed nothing is admitted to the slot later, or in the same second under a larger identity |
| `Slots.AdmittingDisturbsNobody` | internal/cluster/cluster.go:213-240 | Admitting an identity nothing is known of changes nobody else's membership |
| `Slots.AdmissionIsStoredIff` | internal/cluster/cluster.go:233-239 | The admission signed is the one stored exactly when the record kept for the joiner is older or is that same one; otherwise the set does not change |
| `Slots.NameIsRefusedIff` | internal/cluster/cluster.go:219-221 | A name is refused exactly when another member has it |
| `Slots.NoSlotIsFreeIff` | internal/cluster/cluster.go:222-230 | The overlay is full exactly for a joiner that is not a member with a record while members hold every slot |
| `Slots.AdmittedAsAsked` | internal/cluster/cluster.go:213-240 | An admission names the joiner, name, admitter and time asked for and is signed over them; a member with a record gets its own slot again, anyone else, revoked or not, one in range that no member holds |
| `Slots.EnrollingAgainKeepsSlot` | internal/cluster/cluster.go:225-226 | A member that enrols again has the same slot afterwards, stored or not |
| `Slots.EnrollingAgainKeepsAddress` | internal/cluster/cluster.go:225-226 | Where records are tidy, a silent member enrolled again by a member keeps membership and address, and so does everyone else |
| `Slots.AdmittingKeepsTidy` | internal/cluster/cluster.go:213-240 | Admitting such an identity keeps members' slots distinct and in range and their names distinct |
| `Slots.RevokingKeepsTidy` | internal/cluster/cluster.go:170-180 | So does a revocation dated after the records |
| `Slots.RunsStayTidy` | internal/cluster/cluster.go:170-240 | From the founding on, any sequence of enrolments of new identities and such revocations keeps slots distinct, in 1..MaxHost, and names distinct |
| `Slots.RunsGiveEveryMemberItsAddress` | internal/cluster/cluster.go:258-274 | After any such run every member with a record has an address of its own |
| `Overlay.OrIsAddition` | internal/overlay/overlay.go:35-39 | Where the low bits are clear, bitwise OR with a number of that many bits is addition |
| `Overlay.MaxHostFits` | internal/overlay/overlay.go:11-24 | The highest slot is below the number of host addresses, and for IPv4 below the broadcast address |
| `Overlay.SlotAddrIsSum` | internal/overlay/overlay.go:26-41 | A slot's address is the network address plus the slot, for both families: no carry, no truncation |
| `Overlay.SlotAddrIsInjective` | internal/overlay/overlay.go:26-41 | Two slots of one network never share an address |
| `Overlay.SlotAddrIsInside` | internal/overlay/overlay.go:26-41 | The address lies in the prefix and is neither the network nor the IPv4 broadcast address |
| `Overlay.EveryHostHasASlot` | internal/overlay/overlay.go:11-41 | With at most 63 host bits every address of the network but its own and the IPv4 broadcast address is the address of a slot |
| `Overlay.SlotsReachTop` | internal/overlay/overlay.go:14-24 | The highest slot is the last such address, or 2^64 - 2 |
| `ClusterNode.VerifiedPeersAreDistinct` | internal/cluster/cluster.go:276-294 | Peers that pass verification are members, and share an overlay address exactly if they are one identity |
| `ClusterNode.VerifiedPeersAreAsSigned` | internal/cluster/cluster.go:276-294 | If an identity signed one set of metadata, and any records, a peer of that identity passes only with exactly that name, address, key and networks, at the address the records assign |
| `ClusterNode.VerifiedIff` | internal/cluster/cluster.go:276-294 | Metadata passes exactly when it is of a member with a record, at the address of its slot, which nobody contests, signed by its identity over name, address, key and networks, with a well-formed key |
| `ClusterNode.HonestPeersPass` | internal/cluster/cluster.go:276-294 | An honest node's own metadata at its assigned address with a well-formed key passes at every node |
| `ClusterNode.MembersOfRunsPass` | internal/cluster/cluster.go:276-294 | So does that of every member with a record after any orderly run of enrolments and revocations, at its slot's address |
| `ClusterNode.Cluster.Admit` | internal/cluster/cluster.go:213-240 | On success the admission it signed is queued and returned with the saved listing, and stored exactly when the record kept for the joiner is older or is that same one; on each refusal nothing changes |
| `ClusterNode.Cluster.Revoke` | internal/cluster/cluster.go:170-180 | On success the target is revoked, by its earlier revocation or else by one of this node dated now, nobody else's revocation changes and the queued record names the target; where the records are older, none revoked it and this node is a member, the target is one no longer and everyone else stays as they were; on failure nothing changes |
| `ClusterNode.RevokingTakesTheTarget` | internal/cluster/cluster.go:170-180 | The revocation signed is of the target, in the signer's name, now; by a member, over older records, it ends exactly the target's membership |
| `ClusterNode.Cluster.NotifyMsg` | internal/cluster/cluster.go:499-537 | A broadcast record is passed on and announced exactly when it changed the set, and what is saved stays the set's listing |
| `ClusterNode.Cluster.MergeRemoteState` | internal/cluster/cluster.go:553-565 | A peer's state is merged in full, queued never, announced exactly when some record changed the set; what is saved stays the listing |
| `ClusterNode.Cluster.LocalState` | internal/cluster/cluster.go:544-551 | What is sent is the set's listing |
| `ClusterNode.Cluster.SaveState` | internal/cluster/cluster.go:249-256 | What is saved is the set's listing |
| `ClusterNode.Assigned` | internal/cluster/cluster.go:258-274 | The address computed through the cached set is the one the records assign, with the same refusals |
| `ClusterNode.Start` | internal/cluster/cluster.go:68-83 | A node starts exactly when the checks on what it saved pass, with the merged records as its set |
| `ClusterNode.RestartResumes` | internal/cluster/cluster.go:68-83 | Starting from a listing restores the same set, and the checks pass exactly at the address the records assign |
| `ClusterNode.FounderCanStartIff` | internal/cluster/state.go:192-198 | A founder can start exactly when its name is not empty and the network has room for slot 1 |
| `Wire.Canonical` | internal/wire/wire.go:10-18 | The loop produces the recursive encoding of domain and fields |
| `Wire.DecodeInverts` | internal/wire/wire.go:1-6 | A reader of the format gets back domain and fields from their encoding |
| `Wire.DecodableIff` | internal/wire/wire.go:1-6 | The reader gets them back exactly when the domain has no zero byte and every field is under 2^32 bytes |
| `Wire.EncodingIsInjective` | internal/wire/wire.go:1-6 | Equal bytes mean equal domain and equal fields |
| `Wire.LongFieldCollides` | internal/wire/wire.go:14 | One field of 2^32 zero bytes encodes like 2^30 + 1 empty fields |
| `Wire.BigEndianAt` | internal/wire/wire.go:14 | The bytes of a length are its base-256 digits, the most significant first |
| `Basics.BytesLessIff` | internal/trust/set.go:266 | Of two byte strings the smaller is decided by the first byte that differs, a proper prefix coming first |
| `TrustRecords.HonestRecordsValidate` | internal/trust/records.go:53-93 | What an honest node signs validates, except an empty name or slot 0 |
| `TrustRecords.SignedAsAsked` | internal/trust/records.go:53-71 | What Admit and Revoke make carries subject, signer and time as asked, signed over exactly those bytes |
| `TrustRecords.AdmissionReadsBack` | internal/trust/records.go:45-47 | A reader of the format finds identity, name, slot, admitter and time in an admission's bytes, in that order |
| `TrustRecords.RevocationReadsBack` | internal/trust/records.go:49-51 | And identity, revoker and time in a revocation's |
| `TrustRecords.MetaReadsBack` | internal/trust/records.go:95-104 | And name, address, key, and each network's address and length in signed metadata |
| `TrustRecords.AdmissionBytesDetermine` | internal/trust/records.go:45-47 | The signed bytes determine every field of an admission |
| `TrustRecords.RevocationBytesDetermine` | internal/trust/records.go:49-51 | The signed bytes determine every field of a revocation |
| `TrustRecords.MetaDigest` | internal/trust/records.go:95-104 | The loop produces the encoding of name, address, key and networks |
| `TrustRecords.MetaBytesDetermine` | internal/trust/records.go:95-104 | Signed metadata determines the name, address, key and every network in order, invalid prefixes included |
| `TrustRecords.TranscriptBytesDetermine` | internal/enrol/protocol.go:83-89 | A transcript determines both identities, both nonces and the name |
| `TrustRecords.TranscriptReadsBack` | internal/enrol/protocol.go:83-89 | A reader finds joiner, member, both nonces and the name in a transcript, in that order |
| `TrustRecords.KindsNeverCollide` | internal/trust/records.go:35-39 | Bytes signed or authenticated as one kind of message are never those of another |
| `Tokens.TokenStore.Mint` | internal/enrol/token.go:74-88 | Refuses without effect unless time and uses are positive; else drops what expired and stores the key with those uses, to expire that much after now |
| `Tokens.TokenStore.Lookup` | internal/enrol/token.go:90-100 | Finds a key exactly while the token is pending and unexpired, and drops what expired |
| `Tokens.TokenStore.Consume` | internal/enrol/token.go:102-117 | Succeeds exactly while the token is pending and unexpired, and spends one use, the last one removing it |
| `Tokens.UsesAreConserved` | internal/enrol/token.go:74-127 | In every run, uses spent plus uses left never exceed uses minted, and a pending token has the expiry and key of one of its mints |
| `Tokens.NeverOverspent` | internal/enrol/token.go:102-117 | Whatever the order of operations and the clock, a token is never consumed more often than uses were minted |
| `Tokens.NothingIsSpentAfterExpiry` | internal/enrol/token.go:102-117 | Every successful consume happens before the expiry of a mint of that token |
| `Tokens.WorthItsUses` | internal/enrol/token.go:102-117 | Before it expires, exactly as many attempts succeed as there are uses, and the rest is left |
| `Tokens.MintIsWorthItsUses` | internal/enrol/token.go:74-117 | From a mint on, whatever was pending: of the attempts to consume it in time exactly as many succeed as uses were asked for |
| `Tokens.MintedKeyIsFound` | internal/enrol/token.go:90-100 | Until then a lookup finds the minted key exactly while fewer attempts than uses have been made |
| `Tokens.MintedUsesCanBeSpent` | internal/enrol/token.go:74-117 | The bound of NeverOverspent is met by every run that mints once and tries often enough in time |
| `Enrolment.FrameRoundTrip` | internal/enrol/protocol.go:99-132 | A written frame is read back as it was, with nothing of what follows |
| `Enrolment.CutFrameIsNotRead` | internal/enrol/protocol.go:117-132 | A stream cut inside a frame yields no frame |
| `Enrolment.OversizeIsRefused` | internal/enrol/protocol.go:105-126 | A body is not written exactly when it is over a mebibyte, and no stream announcing such a length is read |
| `Enrolment.Server.OnHello` | internal/enrol/server.go:101-131 | The member's answer to every hello, and what the lookup does to the store |
| `Enrolment.HelloIsAnsweredIff` | internal/enrol/server.go:107-131 | A hello is answered exactly when it is well formed, names the connection's identity and a pending, unexpired token; the challenge is the MAC under the key derived from that token and both nonces over both identities, nonces and the name |
| `Enrolment.Server.OnProof` | internal/enrol/server.go:133-156 | For every proof: outcome, frame sent, token store and records; nothing is signed before a use is spent, and only a joiner that proved the token is told why it is refused |
| `Enrolment.FitsIff` | internal/enrol/server.go:73-99 | An enrolment is refused for size exactly when some admission of that name and time, of whatever joiner, slot and member, would not fit a frame |
| `Enrolment.FittingIsDeliverable` | internal/enrol/server.go:73-77 | If it is not, the welcome sent after the admission fits a frame: no admission is signed that cannot be delivered |
| `Enrolment.AdmissionsSpendUses` | internal/enrol/server.go:101-152 | Any run of a server, mints, hellos, proofs and records learned in any order, is a run of its token store in which each call of Admit is a successful consume |
| `Enrolment.AdmissionsNeverExceedUses` | internal/enrol/server.go:140-152 | In every run of a server a token leads to no more calls of Admit than uses were minted for it, under any clock |
| `Enrolment.AdmitCallsAreTheEvents` | internal/enrol/server.go:133-152 | The calls of Admit counted are the proofs that convince, spend and fit, each once |
| `Enrolment.HelloIsEvent` | internal/enrol/server.go:103-131 | What OnHello does to tokens and records is the hello event of those runs |
| `Enrolment.ProofIsEvent` | internal/enrol/server.go:133-156 | What OnProof does to tokens and records is the proof event of those runs |
| `Enrolment.OnWelcome` | internal/enrol/server.go:208-230 | The joiner's verdict on every welcome, trusting only what the records prove |
| `Enrolment.ChallengeIsAnsweredIff` | internal/enrol/server.go:193-206 | The joiner proves itself exactly to a member that is the connection's peer, sent a 32-byte nonce and the HMAC, under the key derived from the joiner's own token, of "member", a zero byte and the joiner's transcript |
| `Enrolment.OtherChallengesAreRefused` | internal/enrol/server.go:201-203 | A challenge made for any other exchange, or a joiner's MAC sent back, is refused as no proof |
| `Enrolment.WelcomeIsGoodIff` | internal/enrol/server.go:212-230 | A welcome of any origin is accepted exactly when its merged records make the peer a member, its admission is of this joiner by that peer, signed, and makes the joiner a member |
| `Enrolment.AcceptedSetIsSigned` | internal/enrol/server.go:216-227 | The set the joiner judged it by holds only records their signers' keys verify |
| `Enrolment.MacsBindTheExchange` | internal/enrol/protocol.go:83-97 | Equal MACs under one key mean equal identities, nonces and name, and no MAC of one side passes as the other's |
| `Enrolment.KeysBindTheNonces` | internal/enrol/protocol.go:72-81 | Another token or another nonce of either side gives another key |
| `Enrolment.AdmissionForNewcomer` | internal/cluster/cluster.go:213-240 | A newcomer is admitted exactly when its name is proper and free and a slot is free |
| `Enrolment.NewcomerIsMember` | internal/cluster/cluster.go:233-234 | A newcomer admitted now is a member exactly if its admitter is one, and nobody else is affected |
| `Enrolment.WelcomeIsAcceptedIff` | internal/enrol/server.go:216-230 | The joiner accepts the welcome exactly when the member that wrote it is a member |
| `Enrolment.NewcomerHasItsAddress` | internal/cluster/cluster.go:261-274 | The newcomer's slot fits the network and is uncontested |
| `Enrolment.ListedHostIsFound` | internal/cluster/state.go:182-190 | Scanning the listing for the node's own record gives the slot it was assigned |
| `Enrolment.WelcomedJoinerCanStart` | internal/cluster/state.go:182-208 | From the welcome's records the joiner's start checks pass at the address of its assigned slot |
| `Enrolment.Exchange` | internal/enrol/server.go:101-235 | Both sides of an exchange succeed or both fail, exactly when token, name, slot, membership and frame sizes allow; a refusal reaches the joiner with its reason; a use is spent and the admission stored on exact conditions; on success the joiner is a member, can start, and nobody else is affected |
| `Dialing.BothSidesPreferTheSame` | internal/cluster/transport.go:346-353 | Both sides prefer the same dialler, the smaller of the two |
| `Dialing.Transport.Register` | internal/cluster/transport.go:326-344 | Of an open rival and the new connection exactly the one kept is in the table and the other closed; other addresses are untouched |
| `Dialing.Transport.Forget` | internal/cluster/transport.go:427-439 | Only an entry that still is this connection's goes, and the connection is closed |
| `Dialing.RegisterIsStep` | internal/cluster/transport.go:330-344 | What Register does to the table and the connections is the Register step of the runs |
| `Dialing.ForgetIsStep` | internal/cluster/transport.go:432-439 | What Forget does to the table and the connections is the Forget step of the runs |
| `Dialing.NewConnectionStandsIff` | internal/cluster/transport.go:330-360 | After any run a newly registered connection is the one kept unless the open one there was dialled by the smaller identity and it was not; exactly the other of the two is closed |
| `Dialing.OneOpenConnection` | internal/cluster/transport.go:326-344 | In every run a side's open registered connection is the one in its table, so there is never a second |
| `Dialing.PreferredStands` | internal/cluster/transport.go:326-360 | In every run with one dial by the preferred side its connection is closed by no step but an outside failure |
| `Dialing.TieBreakAgrees` | internal/cluster/transport.go:326-360 | Each side that has registered that connection has it in its table and has closed every other |
| `Dialing.TieBreakIsSafeIff` | internal/cluster/transport.go:326-360 | The tie-break loses no connection of the preferred side in any interleaving exactly when that side dials at most once |
| `Dialing.TwoPreferredDialsCanCollide` | internal/cluster/transport.go:355-360 | With any two dials by the preferred side there is a run that leaves each side holding what the other closed |
| `Dialing.StaleForgetIsHarmless` | internal/cluster/transport.go:427-439 | After any run, forgetting any connection leaves every one a side has registered and not closed in its table |
| `SingleFlight.RunsKeepInv` | internal/cluster/transport.go:455-479 | Every step of every caller keeps the invariant tying threads, listed dials and their outcomes |
| `SingleFlight.LookupIsStep` | internal/cluster/transport.go:442-458 | What a caller that has started finds in the runs is what Lookup finds in the table |
| `SingleFlight.OneDialPerAddress` | internal/cluster/transport.go:459-476 | At most one dial per address is in flight, and its entry is there throughout |
| `SingleFlight.CallersShareTheOutcome` | internal/cluster/transport.go:460-478 | Whoever flew or joined a dial returns its outcome; done is closed once, after it is set |
| `SingleFlight.WaitersAreServed` | internal/cluster/transport.go:462-478 | A dial somebody waits for has been closed or is still flown by its owner |
| `SingleFlight.CallerJoinsOrDials` | internal/cluster/transport.go:455-470 | In any state a caller without a connection joins the dial listed for its address, or starts one if there is none |
| `SingleFlight.FlightLands` | internal/cluster/transport.go:470-479 | From any state a dial that comes back is over after its owner's own steps: outcome set, entry removed, done closed, and the outcome returned, with the table's connection if one was made |
| `SingleFlight.WaiterReturns` | internal/cluster/transport.go:460-466 | After that a waiting caller's next step returns the same outcome |
| `SingleFlight.SecondDialOverLiveConnection` | internal/cluster/transport.go:455-471 | Any two callers of an address have a run in which one dials beside a live connection the other dialled |
| `SingleFlight.NoSecondDialIff` | internal/cluster/transport.go:451-479 | Whatever the peer dials and the tie-break decides, no dial to an address runs beside a live connection of one's own exactly when the address has at most one caller |
| `Publisher.RunsKeepInv` | internal/cluster/cluster.go:354-422 | Every interleaving keeps the invariant on lock, channels, pending signals and snapshots |
| `Publisher.NothingBlocksOrBreaks` | internal/cluster/cluster.go:412-420 | The send in watch finds its slot free, nothing is sent on a closed channel, none is closed twice |
| `Publisher.QuietMeansUpToDate` | internal/cluster/cluster.go:572-578 | When watch is idle and no signal pending, every subscriber's last snapshot shows all signalled changes |
| `Publisher.SlotsHoldTheNewest` | internal/cluster/cluster.go:395-397 | A subscriber that reads gets the newest snapshot it was sent |
| `Publisher.SnapshotsOnlyAdvance` | internal/cluster/cluster.go:377-381 | No channel is given an older snapshot after a newer one |
| `Publisher.LeaveClosesEveryChannelOnce` | internal/cluster/cluster.go:354-393 | After Leave every channel Members returned, before or after, is closed exactly once |
| `Publisher.SignalIsServed` | internal/cluster/cluster.go:395-422 | From any state with a signal pending, watch's own steps put the current membership in every slot, whatever was left unread, and bring it back to waiting |
| `Publisher.LeaveFinishes` | internal/cluster/cluster.go:383-393 | Once it closes channels, Leave's own steps finish, with every channel closed once |
| `Routes.KeepIsExact` | internal/cli/agent_loop.go:81-92 | Of a node's networks exactly those outside the overlay and not given away are kept, each once |
| `Routes.OverlapsIff` | internal/cli/agent_loop.go:84-85 | Two prefixes overlap exactly when some address lies in both |
| `Routes.FirstAdvertiserKeeps` | internal/cli/agent_loop.go:69-93 | A node keeps a network exactly when it advertises it, it is outside the overlay, and no earlier node advertises it |
| `Routes.EachNetworkHasOneRouter` | internal/cli/agent_loop.go:69-93 | No network goes to two nodes, and every one offered goes to one |
| `Routes.SortByNameSorts` | internal/cli/agent_loop.go:78 | Sorting keeps the nodes and orders them by name |
| `Routes.OrderOfSnapshotIsIrrelevant` | internal/cli/agent_loop.go:69-74 | Snapshots of the same nodes under distinct names are resolved alike whatever their order |
| `Routes.RoutesAreTheNodes` | internal/cli/agent_loop.go:75-97 | The prefixes wanted are every peer's host prefix and every network some peer advertises outside the overlay |
| `Routes.HostPrefixIsOne` | internal/wg/wireguard.go:189-190 | The host prefix of an address contains that address and no other |
| `Routes.Filter` | internal/cli/agent_loop.go:81-92 | The inner loop keeps those networks and records who routes each |
| `Routes.AssignNetworks` | internal/cli/agent_loop.go:76-96 | The outer loop gives each network to the first node advertising it and collects the hosts entries |
| `Routes.HostEntriesAreTheNodes` | internal/cli/agent_loop.go:76-96 | There is one hosts entry per overlay address in the snapshot, naming the last node by name that has it, whatever the order |
| `Routes.State.SetUpInterface` | internal/wg/wireguard.go:136-179 | Succeeds exactly when no call it has to make fails; the interface is then up with our address and exactly the nodes as peers, and the routes are the peers' prefixes plus our own host route if it was there; even on failure no wanted route is lost and no other added |
| `Routes.State.SetUpDevice` | internal/wg/wireguard.go:137-168 | The steps before the routes succeed exactly when every key parses and no call fails, and then device, peers, address, MTU and link are as configured |
| `Routes.State.SetUpRoutes` | internal/wg/wireguard.go:169-178 | The routes are set up exactly when no wanted prefix is refused, they can be listed and no stale one refuses to go |
| `Routes.State.NodesToPeerConfigs` | internal/wg/wireguard.go:236-261 | Fails exactly when some key does not parse; otherwise each node is a peer under its key for exactly its prefixes |
| `Routes.NodesArePeered` | internal/wg/wireguard.go:236-261 | Every node of a snapshot is a peer under its key, at its address and our port, with its overlay address allowed, and every peer is a node |
| `Routes.NetworksAreRoutedOnce` | internal/wg/wireguard.go:181-187 | Aside from nodes' own addresses, every network offered outside the overlay is allowed to exactly one peer |
| `Routes.State.DownInterface` | internal/wg/wireguard.go:127-134 | The interface goes with its peers and routes exactly when the device lets it |
| `Routes.State.RemoveStaleRoutes` | internal/wg/wireguard.go:192-211 | Succeeds exactly when the routes can be listed and no stale one refuses to go, and then exactly the wanted ones and our own are left; never loses a wanted one |
| `Routes.Apply` | internal/cli/agent_loop.go:69-109 | The interface is set up exactly when no call fails; its peers are then the nodes, each network offered outside the overlay is allowed to exactly one of them, and its routes are every peer's host prefix, those networks, and our own host route if it was there; if it fails the interface is taken down; the hosts entries are one per address |
| `EtcHosts.WriteEntries` | internal/etchosts/etchosts.go:84-122 | Both loops together write a rewriting of the old lines and then the entries not met, in some order |
| `EtcHosts.ScanLines` | internal/etchosts/etchosts.go:93-107 | The loop over the file writes the rewriting of its lines and knows which addresses it met |
| `EtcHosts.NewEntries` | internal/etchosts/etchosts.go:112-116 | The loop over the map writes each entry not met once, in some order |
| `EtcHosts.EntryIsManaged` | internal/etchosts/etchosts.go:124-130 | Every line written is recognised as managed afterwards, for every banner that is not blank |
| `EtcHosts.ManagedIff` | internal/etchosts/etchosts.go:98-101 | A line is managed exactly when nothing but white space follows the banner, trimmed, in it |
| `EtcHosts.EntryNamesItsAddress` | internal/etchosts/etchosts.go:102 | The first field of a written line is its address |
| `EtcHosts.EntryReadsBack` | internal/etchosts/etchosts.go:124-130 | Read up to the first "#" and split at white space, a written line is its address and all its names in order |
| `EtcHosts.UnmanagedLinesStay` | internal/etchosts/etchosts.go:84-122 | Lines without the banner stay, in order, and no others are added |
| `EtcHosts.ManagedLinesAreTheEntries` | internal/etchosts/etchosts.go:46-48 | After a write the managed lines are exactly the entries with names, one line each |
| `EtcHosts.WritingIsIdempotent` | internal/etchosts/etchosts.go:84-122 | Writing the same entries again, in whatever map order, changes nothing |
| `EtcHosts.EmptyWriteUndoes` | internal/etchosts/etchosts.go:84-122 | Writing no entries leaves exactly the lines that were never managed |
| `EtcHosts.BannersAreTheirOwn` | internal/cli/hosts.go:9-17 | An interface's entries are taken for another's exactly when the two interface names are equal |

## Left out

- ReplayEquivalence: with revocations the condition is sufficient, not necessary. Records out of chronological order can agree with the replay by coincidence, since what one signature gets wrong another may repeat; `TrustReplay.ReplayAgreesIff` is exact where nothing is revoked.
- RevocationEffect: revocations dated before some stored record are not covered; one of those can void signatures already given.
- AdmissionEffect: with revocations, admissions of identities that have signed records before are not covered; without, ReadmissionEffect covers every admission.
- RunsStayTidy: concerns one node's records; two admitters that have not heard of each other can hand out one slot, which is what HeldSlotsAreGrantedOnce resolves.
- Exchange: the connection delivers every frame, the acknowledgement included, and both parties are honest; the two halves, `Server.OnHello`, `Server.OnProof`, `AnswerChallenge` and `OnWelcome`, take arbitrary messages.
- FittingIsDeliverable: of the JSON text it is assumed only that a welcome grows with its admissions and an admission with its slot and signature, which has 64 bytes; the code's second reading of the clock, a little later, is taken to be the first.
- AcceptedIffSigned: what it takes to make a signature that verifies is the library's; nothing is said of who can.
- SetUpInterface: how an operating system rewrites a prefix with host bits set, and which of two peers a prefix both are given goes to, are not modelled.
- Apply: what becomes of the hosts entries it hands on is `EtcHosts.WriteEntries`; that a failed write of them is only logged is not modelled.
- NoSecondDialIff: which of two connections register keeps is left open there, and decided in `Dialing`.
- RevocationByMemberCounts: sufficient, not necessary. Questions can come back to themselves and nobody stand, as in an odd ring, so what happens then is stated for rings and for UntiedRevokerStays only.
- RingOfRevocations: an identity whose admitter's chain runs through the ring or through somebody revoked is not covered; its standing turns on those records' times too.
- ReadmissionKeepsMembersIff: exact only with nothing revoked; with revocations ReadmissionDisturbsNobody gives a sufficient condition, since a newer admission also changes when its admitter is asked about.
- WriteEntries: the scanner's limit on line length, the carriage returns it strips, and names containing line breaks are not modelled; a banner of white space alone, for which the code can panic, is excluded, as the package's own comment asks for a "#".
- Set: one thread at a time; locking and interleavings are in `TrustCache`, over the contents rather than the object.
- InsertBy and InsertByName: the library sort is an insertion sort, which has the same result on distinct keys.
- Signatures, HMAC, HKDF, SHA-256, TLS and X.509 are library code and appear as function values.
- JSON, base32 and YAML text are not modelled: messages are values, and the length of a welcome is an arbitrary function of its content.
- A welcome's gossip address and the log messages that go with every refusal are not modelled.
- The gossip library, QUIC, sockets and timers are reduced to steps that may happen, repeat or be lost; the retransmit queue keeps only what is put in it.
- Files: atomic replacement, permissions and the state file's text are not modelled; what is saved is.
- RevokeSelf, Join, forwardEvents, NotifyConflict, goroutine tracking and the enrolment semaphore are not modelled.
- IPv6 zones are not modelled; the signed bytes leave them out.
- Command line, configuration, status, notification and platform code would add only easy members.
