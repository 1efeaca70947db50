# Ring registry: a verified model

iroh-rings decides which peers may read, write or delete which resources. Peers belong to named rings,
possibly until an expiry; resources are associated with rings, each association granting a set of
permissions. This project models that registry, its two backends, the schema migrations of the durable one,
and the protocol that asks it, and proves what the documentation promises of them. Where a promise does not
hold as written, the exact condition under which it does is proved instead.

The modules, from the specification down to the bytes:

- `Types`, `Ring`: values, errors, and which ring names are valid.
- `RegistrySpec`: the abstract registry, one function per operation of the `Registry` trait, and runs of them.
  `RegistryMeaning` spells out each of them: when each error occurs, and the new state by positions and values.
  `RegistryInvariants` and `Eviction` prove what every run keeps and what eviction can and cannot change.
- `Store`: the registry as four maps, and that updating the maps is the operation. `Associations` holds what
  both backends share; `Memory` is the in-memory backend as a class over those maps.
- `Encoding`: little-endian integers and lists of 32-byte values, which the backends and the protocols share.
  `RedbCodec`: keys, name lists, bitfields and timestamps of the redb tables. `RedbTables`: what it means that
  byte tables hold a store. `Database`, `Redb`: the redb backend as a class over committed tables.
  `RedbInvariant`: the same representation read off the bytes alone.
- `Clamping`: what redb's clamp of stored expiries to the epoch shows. `Backends`: both classes run the same
  operations, exactly where they agree, and that restarts do not show.
- `Migrations`, `MigrationMeaning`: schema steps, crashes between them, and what a migrated database grants.
- `Protocol`, `Gate`: request framing and the gate as a machine over two byte streams, with other tasks
  changing the registry between its steps. `ChunkRanges`, `RangesWire`, `FsTransfer`: sets of chunks, their
  wire form, and the blob transfer with its search through collections.

Conventions. The clock is an argument of every operation that reads it; a `Time` counts nanoseconds from the
epoch and may be negative. A redb write transaction is a copy of the tables that replaces them as a whole when it
commits, or is dropped (`Database`).
Ring names and labels are the strings the API takes; ring names are their UTF-8 bytes. Iteration over a hash
map or hash set visits it in any order. Methods that may meet an undecodable row make no assumption about the
tables: they promise the registry's answer when the tables are valid, and unchanged tables whenever they fail.
Where the source unwraps `Ring::new` of a stored name, the stored names are required to be valid, and every
operation keeps them so. A well-formed version 0 database has valid ring rows, associations without repetition
with existing rings, nicknames of members, and no row in the tables later versions added.

Where the documentation and the code differ, the model follows the code:

- src/registry.rs:292-295 says eviction has no effect on access decisions. An evicted registry answers a clock
  reading `now` as the original answers the later of `now` and the eviction time
  (`Eviction.EvictedStateAnswersFrom`), so an earlier clock can see the difference
  (`Eviction.EvictionShowsToEarlierClocks`); exactly when it does, for one decision, for all of them and for
  listings, is `Eviction.EvictionKeepsDecisionIff`, `EvictionKeepsDecisionsIff` and `EvictionKeepsListingsIff`.
- src/backends/redb/mod.rs:555-557 says a permission key is unambiguous for any resource id. Its length field
  is 16 bits: ids of different lengths can share a key exactly when the lengths agree modulo 65536
  (`RedbCodec.PermKeysCollideIff`). An association is stored faithfully, and removed without harm, exactly when
  it shares no key in a way that shows (`RedbTables.AddRingHoldsIff`, `RedbTables.RemoveRingsHoldsIff`); where it
  does, the open ring can come to carry `Write` (`Redb.SharedKeyOpensWrite`).
- src/backends/mod.rs:3-4 says the backends have the same semantics. redb also clamps an expiry before the epoch
  to the epoch. `Backends.StepBoth` says exactly on which operations the two agree; they do whenever clocks are
  at or after the epoch and ids have at most 65535 bytes (`Backends.OrdinaryRunsAgree`).
- The repository's own README.md:65-66, 76 and 166-167 say that a resource without associations is always denied,
  that `Write` and `Delete` require ring membership, and that a peer without the required permission never
  reaches the `Transfer`. The registry keeps that
  (`RegistryInvariants.OpenRingGrantsOnlyRead`), and the gate for every transfer whose `can_access` says no
  (`Gate.TransferNeedsPermission`). `FsTransfer` asks only whether the peer may `Read`, whatever was requested:
  `FsTransfer.WriteServedToReader` is a `Write` request that is served without the permission, and
  `FsTransfer.PermissionRequiredIff` says exactly when the promise holds. A resource without associations is
  served exactly to readers of a collection that refers to it (`FsTransfer.UnassociatedServedIff`).

## Model

| member | source | states |
|---|---|---|
| Ring.NewRing | src/ring.rs:31-43 | A name is accepted iff it is non-empty and has no whitespace and no NUL; each refusal has its own error, empty first |
| Ring.ValidNamesAreNulFree | src/ring.rs:31-43 | An accepted name has no NUL byte, which the NUL-separated encodings rely on |
| Ring.WhitespaceIsWhiteSpace | src/ring.rs:36-38 | The byte test for whitespace accepts the UTF-8 encoding of a character iff Unicode calls it white space |
| RegistryMeaning.CreateRingResult | src/registry.rs:175-183 | Exactly when each of the five outcomes of `create_ring` occurs: accepted, empty, invalid characters, reserved, already there |
| RegistryMeaning.CreateRingState | src/registry.rs:175-183 | Accepted, there is one more ring, without members; refused, nothing changes |
| RegistryMeaning.AddPeerFrame | src/registry.rs:185-207 | A missing ring is refused with the registry unchanged; otherwise adding succeeds and only that ring's members can change |
| RegistryMeaning.AddNewPeer | src/registry.rs:185-190 | A peer that is not in the ring becomes its last member with the given label and expiry |
| RegistryMeaning.ReaddLivePeer | src/registry.rs:187-190 | A live member keeps its place; a given label and a given expiry replace the old ones, earlier or later, and what is not given stays |
| RegistryMeaning.ReaddExpiredPeer | src/registry.rs:192-195 | A member whose expiry has been reached keeps its place, and neither its label nor its expiry |
| RegistryMeaning.RecordDecides | src/registry.rs:274-278 | Where one private ring alone grants, a member has access exactly while its expiry, if any, is ahead |
| RegistryMeaning.ReaddedAccessEnds | src/registry.rs:187-190 | There, re-adding a live member with an expiry ends its access exactly at that expiry, and without one where it ended before |
| RegistryMeaning.RemovePeerFrame | src/registry.rs:209-217 | A missing ring is refused with the registry unchanged; removing a peer that is not a member changes nothing; no other ring changes |
| RegistryMeaning.RemoveMember | src/registry.rs:209-217 | The member goes and the others close up in order |
| RegistryMeaning.ListRingPeersMeaning | src/registry.rs:219-228 | A missing ring is refused; otherwise the listing has exactly the members whose expiry is not reached, each once, in order |
| RegistryMeaning.EvictMeaning | src/registry.rs:290-305 | Each ring keeps exactly the members whose expiry is not reached, in order, and the others are what is returned |
| RegistryMeaning.AddRingResult | src/registry.rs:256-272 | Exactly when an association is accepted and when each of the three errors occurs: any permissions on a private ring, only `Read` on the open one |
| RegistryMeaning.AddRingState | src/registry.rs:256-260 | Refused, nothing changes; accepted, the ring's association is replaced in its place or appended as the last |
| RegistryMeaning.RemoveRingsMeaning | src/registry.rs:237-243 | The resource has no association and nothing else changes |
| RegistryMeaning.HasPermissionMeaning | src/registry.rs:274-288 | Granted iff some association carries the permission and is of the open ring or of one with the peer as a member whose expiry is not reached |
| RegistryInvariants.StepKeepsWellFormed | src/registry.rs:174-306 | Every operation keeps the invariant (valid names, distinct members, duplicate-free associations with existing rings, non-empty permission sets, `Read` only for the open ring), and an error changes nothing |
| RegistryInvariants.RunKeepsWellFormed | src/registry.rs:174-306 | Every run of operations keeps it |
| RegistryInvariants.OpenRingGrantsOnlyRead | src/registry.rs:316-327 | After any run from any well-formed registry, a migrated one included, the open ring carries `Read` alone, no association is empty, and `Write` and `Delete` are held exactly by live members of a private ring that grants them |
| RegistryInvariants.MembershipUpdateFrame | src/backends/memory.rs:85-131 | Adding or removing a member of a ring changes no decision about another peer, nor about a resource not associated with the ring |
| RegistryInvariants.ReaddingLiveMemberKeepsAccess | src/registry.rs:187-190 | Re-adding a live member without an expiry changes nobody's access, at any time |
| RegistryInvariants.ReaddingStartsFresh | src/registry.rs:192-195 | After a removal, or for a member that is not live, adding discards the old label and expiry |
| RegistryInvariants.AssociationFrame | src/registry.rs:256-260 | Associating a ring replaces that ring's permission set and keeps every other association, its position, and every other resource |
| RegistryInvariants.DecisionDependsOnRings | src/registry.rs:274-288 | A decision depends only on the associations of the resource and on the peer's live memberships in their rings |
| Eviction.EvictedStateAnswersFrom | src/registry.rs:290-300 | At every clock reading, decisions and listings after an eviction at `t` are those of the unevicted registry at the later of that reading and `t` |
| Eviction.EvictionShowsToEarlierClocks | src/registry.rs:292-295 | A well-formed registry in which an eviction changes a decision at an earlier clock reading |
| Eviction.EvictionKeepsDecisionIff | src/registry.rs:292-295 | An eviction at `t` keeps a decision at `now` iff `now` is at or after `t`, or the peer had no access at `now`, or it has access through the open ring or a membership that outlasts `t` |
| Eviction.EvictionKeepsDecisionsIff | src/registry.rs:292-295 | It keeps every decision at `now` iff `now` is at or after `t`, or whatever access a membership expiring in between gives is also had in a way that outlasts `t` |
| Eviction.EvictionKeepsListingIff | src/registry.rs:219-222 | It keeps the listing of a ring at `now` iff `now` is at or after `t` or none of the ring's memberships expires in between |
| Eviction.EvictionKeepsListingsIff | src/registry.rs:219-222 | And every listing iff none of any ring's does |
| Eviction.EvictionConserves | src/backends/memory.rs:249-269 | Each membership is either kept or returned, never both |
| Eviction.EvictionsCompose | src/backends/memory.rs:249-269 | Two evictions leave what one at the later time leaves; what they return is disjoint and together what that one returns |
| Eviction.SameStateAfterStep | src/backends/memory.rs:72-269 | Registries with the same live members from `t` on stay so under every operation whose clock reads at least `t` |
| Eviction.SameAnswerFromStep | src/backends/memory.rs:72-269 | Such registries answer every such operation alike: listings up to order, evicted memberships excepted |
| Eviction.SameAnswersFromRun | src/backends/memory.rs:72-269 | And so over whole runs |
| Eviction.EvictionIsUnobservableFrom | src/registry.rs:290-300 | From any reachable registry, no later run with clock readings at or after an eviction can tell whether it happened, except by what a later eviction returns |
| Eviction.LaterEvictionsReturnLess | src/registry.rs:300-300 | And what a later eviction returns is part of what it would have returned, the rest being memberships that the first eviction returned |
| Store.AddPeerRefines | src/backends/memory.rs:94-116 | The update of the three membership maps is `add_peer_to_ring`, and leaves no label or expiry without its member |
| Store.NewMemberHasNoRows | src/backends/memory.rs:100-107 | A peer that is not a member has no label or expiry left over, so a new membership starts fresh |
| Store.RemovePeerRefines | src/backends/memory.rs:126-130 | Filtering the list and dropping both rows is `remove_peer_from_ring` |
| Store.EvictRefines | src/backends/memory.rs:249-269 | Dropping the memberships with an expired row is `evict_expired`, and those rows are exactly the evicted memberships |
| Store.BatchesCompose | src/backends/redb/mod.rs:443-468 | Evicting in batches, in any grouping, is evicting their union |
| Store.WithoutOneKey | src/backends/memory.rs:259-264 | A batch of one key is a removal, or when the ring is gone, the dropping of its rows |
| Store.AddRingRefines | src/backends/memory.rs:209-213 | Writing the recomputed list of associations is `add_ring_to_resource` |
| Store.LiveMemberInStore | src/backends/memory.rs:37-41 | A live member is one in the list whose expiry row, if any, has not passed |
| Associations.ValidateRingPermissions | src/registry.rs:316-327 | Refuses an empty permission list, and anything but `Read` for the open ring, whatever the order and repetitions |
| Associations.ComputeResourceRings | src/registry.rs:333-344 | The loop yields the list with the ring's permissions replaced in place, or appended |
| Associations.AssociateAsSets | src/registry.rs:333-344 | Updating lists of permissions and updating sets of permissions agree |
| Associations.SameListsIff | src/backends/redb/mod.rs:579-591 | Listings with the same permission sets, one of them in the order of the bits, are the same iff every list of the other is strictly increasing in that order |
| Associations.ListNames | src/backends/memory.rs:153-162 | Every ring once, the open ring first; the invariant the source unwraps holds |
| Memory.InMemoryRegistry.constructor | src/backends/memory.rs:59-68 | A new registry has the open ring, no member and no association |
| Memory.InMemoryRegistry.CreateRing | src/backends/memory.rs:72-83 | New state and result are those of the abstract operation, errors included |
| Memory.InMemoryRegistry.AddPeerToRing | src/backends/memory.rs:85-117 | New state and result are those of the abstract operation |
| Memory.InMemoryRegistry.RemovePeerFromRing | src/backends/memory.rs:119-131 | New state and result are those of the abstract operation |
| Memory.InMemoryRegistry.ListRingPeers | src/backends/memory.rs:133-151 | The unexpired members in order with label and expiry, or that the ring does not exist |
| Memory.InMemoryRegistry.ListRings | src/backends/memory.rs:153-162 | Every ring once, the open ring first |
| Memory.InMemoryRegistry.RemoveRingFromResource | src/backends/memory.rs:164-174 | The resource has no association left and nothing else changes |
| Memory.InMemoryRegistry.ListResourceRings | src/backends/memory.rs:176-196 | The associations of the resource in order, their permissions listed as they were given |
| Memory.InMemoryRegistry.AddRingToResource | src/backends/memory.rs:198-215 | New state and result are those of the abstract operation, for any list of permissions |
| Memory.InMemoryRegistry.HasPermission | src/backends/memory.rs:217-247 | True iff some association grants the permission and its ring is open or has the peer as a live member |
| Memory.InMemoryRegistry.DropMembership | src/backends/memory.rs:260-264 | One key of an eviction: the member goes from its list and both rows go |
| Memory.InMemoryRegistry.EvictExpired | src/backends/memory.rs:249-269 | Key by key in any order, exactly the expired memberships go and are returned, each once |
| RedbCodec.SplitInvertsMemberKey | src/backends/redb/mod.rs:480-508 | Splitting a member key gives ring and peer back |
| RedbCodec.MemberKeyInjective | src/backends/redb/mod.rs:480-485 | Different memberships have different keys |
| RedbCodec.MemberKeyInvertsSplit | src/backends/redb/mod.rs:491-508 | Bytes are a member key iff they have at least 33 bytes with a NUL before the last 32, and then building from the split parts restores them |
| RedbCodec.MemberKeyBytes | src/backends/redb/mod.rs:480-508 | A member key is the name, a NUL and the 32 bytes of the peer; any 33 bytes or more split there |
| RedbCodec.PermKeyBytes | src/backends/redb/mod.rs:558-565 | A permission key is the low two bytes of the length, least significant first, the id and the name |
| RedbCodec.PermKeyInjective | src/backends/redb/mod.rs:558-565 | For ids of at most 65535 bytes, whatever bytes they contain, different associations have different permission keys |
| RedbCodec.PermKeysCollideIff | src/backends/redb/mod.rs:553-565 | Ids of two lengths can share a permission key under valid ring names exactly when the lengths differ by a multiple of 65536 |
| Encoding.ChunksRoundTrip | src/backends/redb/mod.rs:545-551 | Decoding an encoded list of peer ids gives the list |
| Encoding.EncodeInvertsDecodeChunks | src/backends/redb/mod.rs:545-551 | Decoding any bytes loses only a trailing partial chunk |
| Encoding.ContainsChunk | src/backends/redb/mod.rs:369-421 | The chunk scan of a raw row finds a peer iff it is in the decoded list |
| Encoding.ChunkAt | src/backends/redb/mod.rs:549-551 | Chunk `i` of a row is its 32 bytes from `32 * i` on |
| RedbCodec.EncodeRingNames | src/backends/redb/mod.rs:593-604 | The loop writes the names with a NUL between each two |
| RedbCodec.RingNamesRoundTripIff | src/backends/redb/mod.rs:593-613 | A list of names is read back iff none contains a NUL and it is not one empty name |
| RedbCodec.JoinedBytes | src/backends/redb/mod.rs:593-604 | One NUL byte between two names and no other byte added |
| RedbCodec.ReencodedRow | src/backends/redb/mod.rs:593-613 | Encoding what any row decodes to restores the row |
| RedbCodec.PermsToByteMeaning | src/backends/redb/mod.rs:567-577 | The byte has exactly the bits of the listed permissions, none above the third, and is zero iff the list is empty |
| RedbCodec.ByteIsItsPermissions | src/backends/redb/mod.rs:567-591 | A byte without stray bits is determined by the permissions it grants |
| RedbCodec.BitMeaning | src/backends/redb/mod.rs:567-577 | Bit 0 is `Read`, bit 1 `Write`, bit 2 `Delete`, reading and writing |
| RedbCodec.ByteToPerms | src/backends/redb/mod.rs:579-591 | Lists `Read`, `Write`, `Delete` in that order, once each, exactly where bit 0, 1, 2 is set |
| RedbCodec.ExpiryRoundTrip | src/backends/redb/mod.rs:525-543 | A stored expiry decodes without overflow, to the later of itself and the epoch |
| RedbCodec.ExpiryRowMeaning | src/backends/redb/mod.rs:525-533 | The row holds the seconds since the epoch and fewer than 10^9 further nanoseconds, zero for earlier times |
| RedbCodec.StoredExpiryMeaning | src/backends/redb/mod.rs:535-543 | Any row is the instant that far after the epoch, and an error iff that is out of range |
| RedbTables.WriteAssociationPerms | src/backends/redb/mod.rs:298-367 | Writing one permission row represents the association, and keeps the others, if no other resource's association with different permissions has its key |
| RedbTables.AddRingHoldsIff | src/backends/redb/mod.rs:298-367 | After `add_ring_to_resource` the tables hold the registry with the association iff no other resource's association with different permissions shares the key: for ids of any length |
| RedbTables.RemoveRingsHoldsIff | src/backends/redb/mod.rs:244-270 | After `remove_ring_from_resource` the tables hold the registry without the associations iff none of them shares its key with another resource's |
| RedbTables.ShortIdsShareNoKey | src/backends/redb/mod.rs:553-565 | Among ids of at most 65535 bytes no two resources' associations share a key |
| RedbTables.DropAssociations | src/backends/redb/mod.rs:244-270 | Removing the rows of the listed rings removes the permission rows of the resource, and no other's if no key is shared |
| Redb.RedbRegistry.CreateRing | src/backends/redb/mod.rs:111-128 | State and result of the abstract operation; tables untouched on error |
| Redb.RedbRegistry.AddPeerToRing | src/backends/redb/mod.rs:130-174 | State and result of the abstract operation with the expiry clamped to the epoch; tables untouched on error |
| Redb.RedbRegistry.RemovePeerFromRing | src/backends/redb/mod.rs:176-198 | State and result of the abstract operation; tables untouched on error |
| Redb.RedbRegistry.ListRingPeers | src/backends/redb/mod.rs:200-228 | On any tables: fails iff the ring does not exist or some listed peer's expiry row cannot be decoded, and otherwise lists the unexpired members in order with label and expiry; on valid tables, the abstract listing |
| Redb.RedbRegistry.ListRings | src/backends/redb/mod.rs:230-242 | Every ring once, the open ring first |
| Redb.RedbRegistry.RemoveRingFromResource | src/backends/redb/mod.rs:244-270 | On any tables, exactly which rows go; on valid ones, the result is the abstract removal iff no key is shared with another resource |
| Redb.RedbRegistry.ListResourceRings | src/backends/redb/mod.rs:272-296 | The listed rings in order, each with the permission set of its row, none without a row; on valid tables, the associations |
| Redb.RedbRegistry.AddRingToResource | src/backends/redb/mod.rs:298-367 | For ids of any length, the result of the abstract operation and exactly which rows are written; the new tables hold the new registry iff no other resource's association with different permissions shares the key; tables untouched on error |
| Redb.RedbRegistry.HasPermission | src/backends/redb/mod.rs:369-421 | On any tables, the first ring of the row that grants, or whose needed expiry row cannot be decoded, decides, and otherwise the answer is no; on valid tables, the decision of the abstract registry |
| Redb.RedbRegistry.EvictExpired | src/backends/redb/mod.rs:423-472 | On any tables: fails iff some expiry row cannot be decoded or an expired one's key does not split, and otherwise exactly which rows go, which ring rows are rewritten to what, and what is reported; on valid tables, the abstract eviction, each membership returned once; tables untouched on error |
| Redb.RedbRegistry.RemovePermRows | src/backends/redb/mod.rs:244-270 | The loop drops exactly the permission rows of the listed rings |
| Redb.RedbRegistry.StoredEntries | src/backends/redb/mod.rs:272-296 | Reads each ring's permission row, on any tables |
| Redb.CollectExpired | src/backends/redb/mod.rs:434-441 | Collects exactly the expired rows, each once, parsed; fails iff some row's expiry does not decode or an expired row's key does not split |
| Redb.GroupByRing | src/backends/redb/mod.rs:443-450 | Each ring's group holds exactly its expired peers |
| Redb.RewriteRings | src/backends/redb/mod.rs:451-462 | Whatever the order of the groups, each ring's row is filtered by its own group and the others are untouched |
| Redb.DropRows | src/backends/redb/mod.rs:464-468 | The collected rows go from both tables and are reported in order |
| Redb.NoRowFails | src/backends/redb/mod.rs:435-454 | On valid tables no row fails to parse, and every expired row names an existing ring: the branch for a missing ring is never taken |
| Redb.EvictRows | src/backends/redb/mod.rs:423-472 | The three passes together, with the same failure condition and the same rows |
| Redb.EvictionRefines | src/backends/redb/mod.rs:443-468 | Rewriting grouped rows represents the store without the expired keys, and reports each evicted membership once |
| Redb.GrantedThrough | src/backends/redb/mod.rs:369-421 | Yes iff the bit is set and the ring is open, or lists the peer with an unpassed expiry or none; an error iff the bit is set and a private ring lists the peer with an expiry row that cannot be decoded |
| Redb.StoredBits | src/backends/redb/mod.rs:69-72 | The scan finds `Read`, `Write`, `Delete` granted by the bits 1, 2, 4 of the stored row |
| Redb.WrittenBits | src/backends/redb/mod.rs:358-366 | An association stores exactly the bits of the permissions listed |
| Redb.FirstDecisionIsUnique | src/backends/redb/mod.rs:369-421 | The rows leave one outcome of the scan |
| Redb.SharedKeyOpensWrite | src/backends/redb/mod.rs:298-367 | If an open resource shares its permission key with a new association of another one with `Read` and `Write`, then after that association the scan gives every peer `Write` on the open resource: there redb's open ring carries more than `Read` |
| Redb.OpenRingSharesKey | src/backends/redb/mod.rs:558-565 | There are such ids, with valid ring names: every id whose length is a multiple of 65536 |
| Redb.RawGrant | src/backends/redb/mod.rs:369-421 | On valid tables, what the bytes of one ring say is what its association grants |
| Redb.ScanRefines | src/backends/redb/mod.rs:369-421 | On valid tables, the scan over a resource's row decides as the abstract registry |
| Redb.AddedRowsHold | src/backends/redb/mod.rs:130-174 | On valid tables adding a peer meets no undecodable row, and the rows written represent the abstract addition |
| Redb.AddPeerRows | src/backends/redb/mod.rs:130-174 | On any tables, adding is refused iff the peer is listed and its expiry row cannot be decoded |
| RedbInvariant.RawInvariantIff | src/backends/redb/mod.rs:53-78 | Tables hold a well-formed registry iff their bytes satisfy the representation invariant: whole chunks and distinct ids, lists of distinct existing rings, permission rows for exactly the listed pairs with non-zero bits within the three, labels and expiries of current members only |
| RedbInvariant.RawInvariantRepresents | src/backends/redb/mod.rs:53-78 | Decoding such tables gives a well-formed registry that they represent |
| RedbInvariant.RepImpliesRawInvariant | src/backends/redb/mod.rs:110-473 | What every operation keeps implies the invariant on the bytes |
| RedbInvariant.DecodedIsTheStore | src/backends/redb/mod.rs:53-78 | Tables represent at most one store, and decoding finds it |
| Clamping.ClampStepIff | src/backends/redb/mod.rs:525-533 | An operation takes the clamped registry to the clamped result with the same answer iff its clock is at or after the epoch, or it meets no membership that the clamp revives: exactly which, for every operation |
| Clamping.ClampKeepsListingIff | src/backends/redb/mod.rs:200-228 | A listing is the same under the clamp iff the clock is at or after the epoch or no member of the ring has an expiry before it |
| Clamping.ClampKeepsDecisionIff | src/backends/redb/mod.rs:369-421 | A decision is the same iff the clock is at or after the epoch, or the peer has access anyway, or no expired membership would give it |
| Clamping.ClampAddPeerIff | src/backends/redb/mod.rs:130-174 | Adding a peer commutes with the clamp iff it does not re-add, before the epoch, an expired member whose label or expiry would then be kept |
| Clamping.ClampEvictIff | src/backends/redb/mod.rs:423-472 | An eviction commutes and returns the same iff its time is at or after the epoch or nothing has expired by then |
| Clamping.ClampRun | src/backends/redb/mod.rs:525-533 | With clocks at or after the epoch, over whole runs, the clamp never shows |
| Clamping.ClampShowsBeforeEpoch | src/backends/redb/mod.rs:528-529 | A registry whose listing shows the clamp to a clock before the epoch |
| Backends.StepBoth | src/backends/mod.rs:3-4 | One operation on both backends, any clock, any id and any list of permissions: they give the same answer and stay related iff the operation does not show the clamp and shares no permission key |
| Backends.RunBoth | src/backends/mod.rs:3-4 | Any run on both: the in-memory answers are the abstract registry's, and redb gives the same answers (errors, decisions, listings in the same order, associations, sets of rings and evicted memberships) and holds the same registry after every operation iff each operation is one on which the two agree |
| Backends.ListBoth | src/backends/redb/mod.rs:272-296 | After a run, the in-memory backend lists a resource's permissions as callers gave them and redb lists them in order, with the same rings and sets: the same sequences iff every list given is strictly increasing |
| Backends.OrdinaryRunsAgree | src/backends/mod.rs:3-4 | They agree on every run whose clocks are at or after the epoch and whose ids have at most 65535 bytes |
| Backends.RunAcrossRestarts | src/backends/mod.rs:6-13 | The same over any number of runs with the database file closed and opened again before each |
| Backends.RunWithRestarts | src/backends/mod.rs:6-13 | And so from a new registry and a new database file |
| Migrations.V0ToV1Transaction | src/backends/redb/migrations.rs:86-119 | One commit adds a `Read` row for exactly the associations without a row, and sets version 1 |
| Migrations.V1ToV2Transaction | src/backends/redb/migrations.rs:127-165 | One commit copies every nickname to the labels, deletes the old table, and sets version 2 |
| Migrations.BackfillAll | src/backends/redb/migrations.rs:98-111 | Whatever the order of the rows, every association without a permission row gets `Read` and every existing row is kept |
| Migrations.Migrate | src/backends/redb/migrations.rs:47-62 | Commits exactly the steps from the stored version on, in order |
| Migrations.Open | src/backends/redb/mod.rs:88-107 | Every commit of an open, in order, and the tables it ends with |
| Migrations.StepsResume | src/backends/redb/migrations.rs:3-8 | After any committed step, migrating again commits exactly the remaining steps |
| Migrations.CutThenOpen | src/backends/redb/migrations.rs:3-8 | An open cut off after any number of commits, then a whole one, ends where an uninterrupted one ends |
| Migrations.OpenIsCrashSafe | src/backends/redb/migrations.rs:3-8 | So does any finite sequence of cut-off attempts followed by a whole one, from any tables, and migrating further changes nothing |
| Migrations.OpenedIsSettled | src/backends/redb/migrations.rs:40-51 | An opened database has the current version; migrating or opening it again commits no change |
| MigrationMeaning.MigrationEstablishesInvariant | src/backends/redb/migrations.rs:86-180 | Opening a well-formed version 0 database ends with tables that satisfy the representation invariant |
| MigrationMeaning.MigrationPreservesAccess | src/backends/redb/migrations.rs:77-85 | It then grants `Read` to exactly those version 0 let in, and `Write` and `Delete` to nobody |
| MigrationMeaning.PermissionRowsFromV0 | src/backends/redb/migrations.rs:98-111 | From any version 0 tables, permission rows there were stay as they are, every listed association without one gets the bit for `Read`, and there is no other row |
| MigrationMeaning.MigratedRing | src/backends/redb/migrations.rs:127-180 | Every ring then lists exactly the members it had, in order, each labelled with the nickname stored under its key and without an expiry, at any clock |
| MigrationMeaning.LaterMigrationKeepsScans | src/backends/redb/migrations.rs:127-180 | Opening a database of version 1 or later changes no outcome of a permission scan, whatever its tables hold: the same rings in the same order say the same, undecodable rows included |
| MigrationMeaning.LaterMigrationKeepsDecisions | src/backends/redb/migrations.rs:127-180 | So no decision of the registry that the tables decode to |
| MigrationMeaning.LaterMigrationKeepsMembers | src/backends/redb/migrations.rs:127-180 | Every member keeps its expiry, and its label unless version 1 has a nickname under its key, which it takes |
| MigrationMeaning.LaterRows | src/backends/redb/migrations.rs:127-180 | Associations in order, permission rows and expiries are kept as they are |
| MigrationMeaning.LaterMigrationEstablishesInvariant | src/backends/redb/migrations.rs:127-180 | Opening a well-formed database of version 1 or later ends with tables that satisfy the representation invariant |
| MigrationMeaning.ReopenChangesNothing | src/backends/redb/migrations.rs:40-51 | Opening a current database changes no table |
| MigrationMeaning.RestartKeepsRegistry | src/backends/redb/mod.rs:88-107 | Closing and opening a current database gives the same registry |
| MigrationMeaning.FreshDatabase | src/backends/redb/mod.rs:81-107 | A new file opens as the registry that has the open ring and nothing else |
| MigrationMeaning.OpenRegistry | src/backends/redb/mod.rs:88-107 | The handle holds the decoded tables, and is valid iff they satisfy the invariant |
| Protocol.StatusOf | src/protocol/mod.rs:76-94 | 0 is denied, 1 is allowed, any other byte is an error that names it |
| Protocol.ParseOperation | src/protocol/mod.rs:66-73 | 1, 2, 3 are `Read`, `Write`, `Delete`, any other byte is an error that names it |
| Protocol.OperationRoundTrip | src/protocol/mod.rs:53-73 | Parsing an encoded operation gives it back |
| Protocol.EncodeRequest | src/protocol/mod.rs:40-59 | Refuses ids over 256 bytes with their length; otherwise two length bytes, least significant first, the id, and 1, 2 or 3 for `Read`, `Write` or `Delete` |
| Protocol.ParseRequestMeaning | src/protocol/gate.rs:131-154 | What the gate reads from any stream, byte by byte: too short, too long, an unknown operation, or which request with which remainder |
| Protocol.ParsesExactlyEncodings | src/protocol/gate.rs:131-154 | The gate reads a request with a given remainder iff the stream is the encoding of that request followed by that remainder |
| Protocol.RequestsArePrefixFree | src/protocol/mod.rs:33-50 | No encoded request is a prefix of another |
| Gate.ReadRequest | src/protocol/gate.rs:131-146 | Reading piece by piece succeeds iff the header is whole and its length allowed, and leaves what follows it |
| Gate.HandleRequest | src/protocol/gate.rs:125-190 | Over every stream, every failure and every change of the registry in between: what is asked of the registry, when the transfer's own check is asked, what is sent, what the transfer is left, and when the stream is finished |
| Gate.OutputShape | src/protocol/gate.rs:125-190 | Nothing, the one byte 0, or the byte 1 and then only the transfer's output; 1 iff a transfer started |
| Gate.MalformedIsDropped | src/protocol/gate.rs:131-146 | A header cut short or a length over 256 ends the handling unanswered, and the registry is not asked |
| Gate.UnknownOperationIsDenied | src/protocol/gate.rs:147-154 | An operation byte other than 1, 2, 3 is answered with the byte 0 and the end of the stream, and the registry is not asked |
| Gate.RequestIsAnswered | src/protocol/gate.rs:156-187 | The transfer's check is asked iff the registry did not say yes, an error included; refused, the byte 0 and the end of the stream; approved, the rest goes to the transfer and the stream ends iff it succeeds |
| Gate.TransferNeedsPermission | src/protocol/gate.rs:158-185 | A transfer starts only on an encoded request, with exactly the rest of the stream, for a peer that held the permission at some moment of the handling or passed the transfer's check |
| Gate.GrantedIsServed | src/protocol/gate.rs:158-185 | A request granted throughout is served when neither registry nor network fails |
| Gate.RefusedIsDenied | src/protocol/gate.rs:158-170 | A request granted at no moment and refused by the transfer's check is never served |
| ChunkRanges.MergeIsCanonical | src/transfers/fs.rs:73-73 | A combination of canonical boundary lists is canonical |
| ChunkRanges.MergeMeaning | src/transfers/fs.rs:155-155 | The sweep denotes the pointwise union or intersection |
| ChunkRanges.RangeMeaning | src/transfers/fs.rs:73-73 | A range denotes its half-open interval, nothing when inverted |
| ChunkRanges.MissingMeaning | src/transfers/fs.rs:155-155 | The missing set is the exact complement |
| ChunkRanges.CanonicalIsUnique | src/transfers/fs.rs:205-210 | Canonical lists that denote the same set are equal |
| Encoding.LeRoundTrip | src/transfers/fs.rs:43-47 | Reading back the little-endian bytes of a number that fits gives the number |
| Encoding.ToLeDigit | src/transfers/fs.rs:43-47 | Byte `j` of an encoded integer is its digit of weight 256^j |
| Encoding.FromLe4 | src/transfers/fs.rs:144-144 | Four bytes read as the sum of their values with weights 1, 2^8, 2^16, 2^24 |
| Encoding.FromLe8 | src/transfers/fs.rs:63-72 | Eight bytes likewise, up to 2^56 |
| RangesWire.EncodeRangesWire | src/transfers/fs.rs:34-51 | The loop writes the count, wrapped to 32 bits, and every whole pair of boundaries |
| RangesWire.PairBytes | src/transfers/fs.rs:45-49 | Pair `i` is written as 16 bytes, first its start, then its end |
| RangesWire.DecodeRangesWire | src/transfers/fs.rs:54-76 | Succeeds iff there are 16 bytes per counted entry, with the union of the entries |
| RangesWire.UnionOfMeaning | src/transfers/fs.rs:54-76 | On arbitrary bytes, a chunk is in the decoded set iff some counted entry covers it, in whatever order and however they overlap |
| RangesWire.EntryBytes | src/transfers/fs.rs:58-73 | Entry `i` covers a chunk iff it lies from the number in the first eight of its 16 bytes up to that in the next eight, least significant byte first |
| RangesWire.TrailingBytesIgnored | src/transfers/fs.rs:54-76 | Bytes after the counted entries do not matter |
| RangesWire.DecodesFirstPairs | src/transfers/fs.rs:34-76 | Decoding any count of an encoded list's pairs gives the boundaries of those pairs |
| RangesWire.RangesRoundTripIff | src/transfers/fs.rs:34-76 | A canonical set is read back iff it is bounded and has fewer than 2^32 ranges |
| FsTransfer.TryCollection | src/transfers/fs.rs:181-194 | A collection lets the peer in iff the registry says it may read it and its bytes are a hash sequence with the blob in it |
| FsTransfer.RefersIff | src/transfers/fs.rs:188-191 | A collection refers to a blob iff its bytes are whole 32-byte hashes and any of them, first or not, is the blob's |
| FsTransfer.CollectionsMeaning | src/transfers/fs.rs:177-180 | The collections searched are exactly the hash-sequence tags listed before the first error |
| FsTransfer.ReadsCollectionIff | src/transfers/fs.rs:173-197 | On the raw listing and raw blob bytes: who reads a collection that refers to the resource |
| FsTransfer.IsMemberOfAllowedCollection | src/transfers/fs.rs:173-197 | The collections before the first listing error are asked about in order, up to the first that lets the peer in; false only after all of them |
| FsTransfer.CanAccess | src/transfers/fs.rs:117-130 | Direct `Read`, or for a 32-byte id a collection; every answer is the registry's at a moment of the handling, a storage error counting as no |
| FsTransfer.AccessIsHeld | src/transfers/fs.rs:171-197 | Whoever is let in could read the blob, or a listed collection that refers to it |
| FsTransfer.HeldIsAccess | src/transfers/fs.rs:171-197 | Whoever can read either throughout is let in, if the registry answers |
| FsTransfer.HandleBlobRequest | src/protocol/gate.rs:125-190 | The gate with this transfer behind it: what the gate does, how `can_access` decided, and exactly when what is exported |
| FsTransfer.ServedOnlyWithAccess | src/protocol/gate.rs:158-185 | Whatever changes meanwhile, a transfer starts only for a peer that held what it asked for, or `Read` on the blob or on a collection that refers to it |
| FsTransfer.ServedIff | src/transfers/fs.rs:117-130 | While nothing changes and registry and network answer, a request is handed to the transfer iff the peer has the permission asked for, or `Read` on the blob, or on a listed collection that refers to it |
| FsTransfer.PermissionRequiredIff | src/transfers/fs.rs:117-130 | That no peer without the permission asked for reaches the transfer holds of a request iff the peer has that permission or has neither `Read` |
| FsTransfer.UnassociatedServedIff | src/transfers/fs.rs:117-130 | A request for a resource without associations is handed to the transfer iff the peer can read a listed collection that refers to the resource |
| FsTransfer.WriteServedToReader | src/transfers/fs.rs:117-130 | A `Write` request that is served to a peer without `Write`, on a resource open to everybody's `Read` |
| FsTransfer.ReadRanges | src/transfers/fs.rs:139-152 | Reads the count and exactly the counted entries, or fails having read everything |
| FsTransfer.CountBytes | src/transfers/fs.rs:140-144 | The count is the first four bytes, least significant first |
| FsTransfer.Transfer | src/transfers/fs.rs:133-167 | Exports the complement of the union of the ranges for a 32-byte id, and otherwise sends nothing |
| FsTransfer.NegotiateMeaning | src/transfers/fs.rs:139-155 | On any input, negotiation succeeds iff the counted entries are there, and a chunk is missing iff none of them covers it |
| FsTransfer.NegotiateInvertsEncoding | src/transfers/fs.rs:34-76 | A peer that encodes what it has is sent exactly what it lacks, and what it sends afterwards stays unread |
| FsTransfer.WholeRequest | src/protocol/mod.rs:40-50 | From the first byte of a stream: header, ranges and remainder are told apart exactly |

## Left out

- Backends.RunBoth: answers that list associations are compared with their permissions as sets; how the two backends list them is `Backends.ListBoth`.
- Gate.HandleRequest: an error of `finish` on a stream is not modelled; finishing always succeeds. So too for FsTransfer.HandleBlobRequest.
- FsTransfer.Transfer: what `export_bao` writes is any bytes and it may fail; bao encoding, BLAKE3 and the blob store are not part of this model.
- Networking and async plumbing: endpoints, connection acceptance, task spawning, tracing, the identity of the peer.
- redb itself: files, locks, pages. Transactions are atomic and isolated, tables are finite maps, and the storage errors of its calls are not modelled; only rows that cannot be decoded are.
- A stored expiry whose seconds and nanoseconds overflow `Duration::new` panics in the source; here it is a storage error like any other overflow.
- `SystemTime` has the range of a Unix platform: `i64` seconds and nanoseconds.
- Ed25519 validity of peer ids: every 32 bytes are a peer id.
- UTF-8 validation and lossy decoding of stored names: names are bytes, taken to be valid UTF-8.
- Locks and lock poisoning: an operation on a registry is one step.
- The wall clock: every operation takes its reading as an argument, in no particular order.
- Ring timestamps, `Display`, hashing, serde and error texts.
- The order of `list_rings` after the open ring, and of evicted memberships: any order.
- The `debug_assert!` on the parity of the boundaries in `encode_ranges_wire`: the model is the release build.
- range_collections: its union, intersection and complement are written out in `ChunkRanges`, from what the source relies on; the library's own code is not part of this model.
- The tag listing and the blobs do not change while one access check searches them; the registry may.
- The shared contract test in src/registry.rs, examples, Makefile and release configuration.
