/**
 The redb backend: src/backends/redb/mod.rs.

 Methods that can meet a row that does not decode take no precondition: on any database whatever they
 fail without changing it, and on a database that represents a registry they never fail so.
 */
module Redb {
  import opened Types
  import opened Ring
  import opened RegistrySpec
  import opened RegistryInvariants
  import opened Store
  import opened Associations
  import opened Encoding
  import opened RedbCodec
  import opened RedbTables
  import opened RedbInvariant
  import D = Database

  function ExpiryOf(rows: map<Bytes, (u64, u32)>, key: Bytes): Result<Option<Time>> {
    if key !in rows then Ok(None)
    else match DecodeExpiry(rows[key])
      case Ok(t) => Ok(Some(t))
      case Err(e) => Err(e)
  }

  /** `is_expired` */
  function IsExpired(rows: map<Bytes, (u64, u32)>, ring: Name, peer: Peer, now: Time): Result<bool> {
    match ExpiryOf(rows, MemberKey(ring, peer))
    case Err(e) => Err(e)
    case Ok(None) => Ok(false)
    case Ok(Some(t)) => Ok(now >= t)
  }

  lemma StoredExpiry(t: Tables, st: Store, k: Key)
    requires RepExpiries(t.expiries, st.expiries)
    ensures ExpiryOf(t.expiries, RowKey(k)) == Ok(Get(st.expiries, k))
  {
    ReadExpiry(t, st, k);
  }

  lemma ExpiryOfIsStored(t: Tables, st: Store, ring: Name, peer: Peer, now: Time)
    requires RepExpiries(t.expiries, st.expiries)
    ensures ExpiryOf(t.expiries, MemberKey(ring, peer)) == Ok(Get(st.expiries, (ring, peer)))
    ensures IsExpired(t.expiries, ring, peer, now) == Ok(HasExpired(st, (ring, peer), now))
  {
    StoredExpiry(t, st, (ring, peer));
  }

  ghost predicate IsStoredEntry(t: Tables, resource: Bytes, name: Name, entry: Listed) {
    && entry.ring == name
    && entry.permissions == InOrder(StoredPermissions(t.perms, resource, name))
    && Elements(entry.permissions) == StoredPermissions(t.perms, resource, name)
  }

  class RedbRegistry {
    const db: D.Database
    /** What the tables hold, decoded. */
    ghost var store: Store

    ghost predicate Valid()
      reads this, db
    {
      Consistent(store) && Rep(db.committed, store)
    }

    /** The registry this object holds. */
    ghost function Abs(): Registry
      reads this
    {
      View(store)
    }

    /** A handle on an open database, valid if its tables hold `st`. */
    constructor (db: D.Database, ghost st: Store)
      ensures this.db == db && store == st
    {
      this.db := db;
      store := st;
    }

    method CreateRing(ring: Name) returns (result: Result<()>)
      modifies `store, db
      ensures old(Valid()) ==> Valid() && (Abs(), result) == RegistrySpec.CreateRing(old(Abs()), ring)
      ensures result.Err? ==> db.committed == old(db.committed)
      ensures SameSchema(old(db.committed), db.committed)
      ensures old(Readable(db.committed)) ==> Readable(db.committed)
    {
      var name := NewRing(ring);
      if name.Err? {
        return Err(name.error);
      }
      if IsOpen(ring) {
        return Err(RingNameReserved(OPEN_RING_NAME));
      }
      var write := db.committed;
      if ring in write.rings {
        return Err(RingAlreadyExists(ring));
      }
      write := write.(rings := write.rings[ring := EncodeChunks([])]);
      if Readable(db.committed) { CreateRingKeepsReadable(db.committed, ring); }
      if Valid() {
        CreateRingRefines(store, ring);
        WriteRing(db.committed.rings, store, ring, []);
        store := CreateRingIn(store, ring);
      }
      db.Commit(write);
      result := Ok(());
    }

    method AddPeerToRing(ring: Name, peer: Peer, lbl: Option<Label>, expiresAt: Option<Time>, now: Time)
      returns (result: Result<()>)
      modifies `store, db
      ensures old(Valid()) ==>
                Valid() && (Abs(), result) == AddPeer(old(Abs()), ring, peer, lbl, ClampOption(expiresAt), now)
      ensures result.Err? ==> db.committed == old(db.committed)
      ensures SameSchema(old(db.committed), db.committed)
      ensures old(Readable(db.committed)) ==> Readable(db.committed)
    {
      if ring !in db.committed.rings {
        assert Valid() ==> ring !in Abs().rings;
        return Err(RingNotFound(ring));
      }
      ghost var added;
      var write;
      write, added := AddPeerRows(db.committed, ring, peer, lbl, expiresAt, now, store);
      if write.Err? {
        return Err(write.error);
      }
      if Readable(db.committed) { SameNamesSameReadable(db.committed, write.value); }
      if Valid() {
        store := added;
      }
      db.Commit(write.value);
      result := Ok(());
    }

    method RemovePeerFromRing(ring: Name, peer: Peer) returns (result: Result<()>)
      modifies `store, db
      ensures old(Valid()) ==> Valid() && (Abs(), result) == RemovePeer(old(Abs()), ring, peer)
      ensures result.Err? ==> db.committed == old(db.committed)
      ensures SameSchema(old(db.committed), db.committed)
      ensures old(Readable(db.committed)) ==> Readable(db.committed)
    {
      var write := db.committed;
      if ring !in write.rings {
        return Err(RingNotFound(ring));
      }
      var members := DecodeChunks(write.rings[ring]);
      members := Retain(members, {peer});
      write := write.(rings := write.rings[ring := EncodeChunks(members)]);
      var key := BuildMemberKey(ring, peer);
      write := write.(labels := write.labels - {key});
      write := write.(expiries := write.expiries - {key});
      if Readable(db.committed) { SameNamesSameReadable(db.committed, write); }
      if Valid() {
        ReadRing(db.committed, store, ring);
        RemoveRefines(db.committed, store, ring, peer);
        RemovePeerRefines(store, ring, peer);
        store := RemovePeerIn(store, ring, peer);
      }
      db.Commit(write);
      result := Ok(());
    }

    /** An expiry row of a listed peer that cannot be decoded fails the listing, whoever the others are. */
    method ListRingPeers(ring: Name, now: Time) returns (result: Result<seq<Member>>)
      ensures ListedRows(db.committed, ring, now, result)
      ensures Valid() ==> result == RegistrySpec.ListRingPeers(Abs(), ring, now)
    {
      result := ListRows(db.committed, ring, now);
      if Valid() { ListedRowsRefine(db.committed, store, ring, now, result); }
    }

    /** The source unwraps `Ring::new` of every stored name. */
    method ListRings() returns (names: seq<Name>)
      requires Readable(db.committed)
      ensures NoDuplicates(names) && Elements(names) == db.committed.rings.Keys
      ensures names != [] && names[0] == OPEN_RING_NAME
      ensures Valid() ==> Elements(names) == Abs().rings.Keys
    {
      names := ListNames(db.committed.rings.Keys);
    }

    /**
     The resource loses its associations. Another resource may lose permissions with it, but only through
     a shared permission key (`PermKeysCollideIff`); then the tables no longer hold the registry.
     */
    method RemoveRingFromResource(resource: Bytes)
      modifies `store, db
      ensures db.committed == RemoveRingRows(old(db.committed), resource)
      ensures old(Valid()) && MayDissociate(old(Abs()).resources, resource) ==>
                Valid() && Abs() == RemoveRings(old(Abs()), resource)
      ensures old(Valid()) ==>
                (Holds(db.committed, RemoveRings(old(Abs()), resource))
                 <==> MayDissociate(old(Abs()).resources, resource))
      ensures old(Readable(db.committed)) ==> Readable(db.committed)
    {
      var write := db.committed;
      var names := StoredNames(write, resource);
      write := write.(resourceRings := write.resourceRings - {resource});
      var perms := RemovePermRows(write.perms, resource, names);
      write := write.(perms := perms);
      if Readable(db.committed) { RemoveRingKeepsReadable(db.committed, resource); }
      if Valid() {
        RemoveRingsHoldsIff(db.committed, store, resource);
        if MayDissociate(store.resources, resource) {
          RemoveRingRowsRefine(db.committed, store, resource);
          store := store.(resources := store.resources - {resource});
        }
      }
      db.Commit(write);
    }

    method RemovePermRows(perms: map<Bytes, bv8>, resource: Bytes, names: seq<Name>) returns (kept: map<Bytes, bv8>)
      ensures kept == perms - set n | n in names :: PermKey(resource, n)
    {
      kept := perms;
      for i := 0 to |names|
        invariant kept == perms - set n | n in names[..i] :: PermKey(resource, n)
      {
        var key := BuildPermKey(resource, names[i]);
        assert names[..i + 1] == names[..i] + [names[i]];
        assert (set n | n in names[..i + 1] :: PermKey(resource, n))
            == (set n | n in names[..i] :: PermKey(resource, n)) + {key};
        kept := kept - {key};
      }
      assert names[..|names|] == names;
    }

    /** The source unwraps `Ring::new` of every name in the row. */
    method ListResourceRings(resource: Bytes) returns (entries: seq<Listed>)
      requires ReadableRow(db.committed, resource)
      ensures AsSets(entries) == DecodedEntries(db.committed.perms, resource, StoredNames(db.committed, resource))
      ensures InListedOrder(entries)
      ensures Valid() ==> AsSets(entries) == EntriesOf(Abs().resources, resource)
    {
      entries := [];
      if resource !in db.committed.resourceRings {
        return;
      }
      var names := DecodeRingNames(db.committed.resourceRings[resource]);
      entries := StoredEntries(db.committed, resource, names);
      if Valid() { DecodedEntriesAre(db.committed, store, resource); }
    }

    /** The stored permissions of each ring of a resource; a ring without a row has none. */
    method StoredEntries(t: Tables, resource: Bytes, names: seq<Name>) returns (entries: seq<Listed>)
      ensures NamesOf(entries) == names
      ensures AsSets(entries) == DecodedEntries(t.perms, resource, names)
      ensures InListedOrder(entries)
    {
      entries := [];
      for i := 0 to |names|
        invariant |entries| == i
        invariant forall j :: 0 <= j < i ==> IsStoredEntry(t, resource, names[j], entries[j])
      {
        var entry := StoredEntry(t, resource, names[i]);
        entries := entries + [entry];
      }
    }

    method StoredEntry(t: Tables, resource: Bytes, name: Name) returns (entry: Listed)
      ensures IsStoredEntry(t, resource, name, entry)
    {
      var key := BuildPermKey(resource, name);
      var permissions := [];
      if key in t.perms {
        permissions := ByteToPerms(t.perms[key]);
      }
      InOrderElements(StoredPermissions(t.perms, resource, name));
      entry := Entry(name, permissions);
    }

    /**
     The association is the one asked for. Another resource's may change with it, but only through a shared
     permission key (`PermKeysCollideIff`); then the tables no longer hold the registry.
     */
    method AddRingToResource(resource: Bytes, ring: Name, permissions: seq<Permission>) returns (result: Result<()>)
      modifies `store, db
      ensures db.committed ==
              if result.Ok? then AddRingRows(old(db.committed), resource, ring, permissions) else old(db.committed)
      ensures old(Valid()) ==> result == AddRing(old(Abs()), resource, ring, Elements(permissions)).1
      ensures old(Valid())
              && (result.Ok? ==> MayAssociate(old(Abs()).resources, resource, ring, Elements(permissions))) ==>
                Valid() && Abs() == AddRing(old(Abs()), resource, ring, Elements(permissions)).0
      ensures old(Valid()) && result.Ok? ==>
                (Holds(db.committed, AddRing(old(Abs()), resource, ring, Elements(permissions)).0)
                 <==> MayAssociate(old(Abs()).resources, resource, ring, Elements(permissions)))
      ensures old(Readable(db.committed)) ==> Readable(db.committed)
    {
      result := ValidateRingPermissions(ring, permissions);
      if result.Err? {
        return;
      }
      if ring !in db.committed.rings {
        return Err(RingNotFound(ring));
      }
      var write := AssociateRows(db.committed, resource, ring, permissions);
      if Readable(db.committed) { AddRingKeepsReadable(db.committed, resource, ring, permissions); }
      if Valid() {
        AddRingHoldsIff(db.committed, store, resource, ring, permissions);
        if MayAssociate(store.resources, resource, ring, Elements(permissions)) {
          AddRingRowsRefine(db.committed, store, resource, ring, permissions);
          store := AddRingIn(store, resource, ring, Elements(permissions));
        }
      }
      db.Commit(write);
    }

    /** The write transaction of `add_ring_to_resource`. */
    method AssociateRows(t: Tables, resource: Bytes, ring: Name, permissions: seq<Permission>) returns (write: Tables)
      ensures write == AddRingRows(t, resource, ring, permissions)
    {
      var names := StoredNames(t, resource);
      var existing := StoredEntries(t, resource, names);
      var updated := ComputeResourceRings(existing, ring, permissions);
      NamesOfAssociate(existing, ring, permissions);
      var row := EncodeRingNames(NamesOf(updated));
      write := t.(resourceRings := t.resourceRings[resource := row]);
      // Only the new association's permission row: the others are there already.
      var key := BuildPermKey(resource, ring);
      write := write.(perms := write.perms[key := PermsToByte(permissions)]);
    }

    /** `has_permission`, on the bytes of the tables. */
    method HasPermission(peer: Peer, resource: Bytes, permission: Permission, now: Time) returns (result: Result<bool>)
      ensures FirstDecides(
                db.committed, resource, StoredNames(db.committed, resource), peer, permission, now, result)
      ensures Valid() ==> result == Ok(RegistrySpec.HasPermission(Abs(), peer, resource, permission, now))
    {
      result := ScanRings(db.committed, resource, peer, permission, now);
      if Valid() { ScanRefines(db.committed, store, peer, resource, permission, now, result); }
    }

    /**
     Every expired membership goes: the rows are collected first, then each ring's member list is
     rewritten once, then the rows are removed.
     */
    method EvictExpired(now: Time) returns (result: Result<seq<Key>>)
      modifies `store, db
      ensures result.Err? <==> EvictionFails(old(db.committed), now)
      ensures result.Ok? ==> EvictedRows(old(db.committed), now, db.committed, result.value)
      ensures old(Valid()) ==> Valid() && Abs() == Evict(old(Abs()), now)
      ensures old(Valid()) ==>
                result.Ok? && NoDuplicates(result.value) && Elements(result.value) == Evicted(old(Abs()), now)
      ensures result.Err? ==> db.committed == old(db.committed)
      ensures SameSchema(old(db.committed), db.committed)
      ensures old(Readable(db.committed)) ==> Readable(db.committed)
    {
      ghost var kept;
      var evicted;
      evicted, kept := EvictRows(db.committed, now, store);
      if evicted.Err? {
        return Err(evicted.error);
      }
      if Readable(db.committed) { SameNamesSameReadable(db.committed, evicted.value.0); }
      if Valid() {
        store := kept;
      }
      db.Commit(evicted.value.0);
      result := Ok(evicted.value.1);
    }
  }

  // ---------------------------------------------------------------- listing a ring

  /** What listing a ring gives, on any tables. */
  ghost predicate ListedRows(t: Tables, ring: Name, now: Time, result: Result<seq<Member>>) {
    if ring !in t.rings then result == Err(RingNotFound(ring))
    else
      var ids := DecodeChunks(t.rings[ring]);
      && (result.Err? <==> ListingFails(t, ring, ids))
      && (result.Ok? ==> result.value == Unexpired(MembersOf(Decoded(t), ring, ids), now))
  }

  /** If the expiry row of the peer can be decoded, its rows are its member record in `st`. */
  ghost predicate ReadsMember(t: Tables, st: Store, ring: Name, peer: Peer) {
    var key := MemberKey(ring, peer);
    ExpiryOf(t.expiries, key).Ok? ==>
      MemberOf(st, ring, peer) == Member(peer, Get(t.labels, key), ExpiryOf(t.expiries, key).value)
  }

  lemma DecodedMember(t: Tables, ring: Name, peer: Peer)
    ensures ReadsMember(t, Decoded(t), ring, peer)
  {
    assert RowKey((ring, peer)) == MemberKey(ring, peer);
    DecodedRow(t.labels, (ring, peer));
    DecodedRow(t.expiries, (ring, peer));
  }

  ghost function MemberIfLive(t: Tables, ring: Name, peer: Peer, now: Time): seq<Member>
    requires ExpiryOf(t.expiries, MemberKey(ring, peer)).Ok?
  {
    var key := MemberKey(ring, peer);
    var expiresAt := ExpiryOf(t.expiries, key).value;
    if expiresAt.Some? && now >= expiresAt.value then [] else [Member(peer, Get(t.labels, key), expiresAt)]
  }

  lemma ListOneMore(t: Tables, st: Store, ring: Name, ids: seq<Peer>, now: Time, i: nat)
    requires i < |ids| && ExpiryOf(t.expiries, MemberKey(ring, ids[i])).Ok? && ReadsMember(t, st, ring, ids[i])
    ensures Unexpired(MembersOf(st, ring, ids[..i + 1]), now) ==
            Unexpired(MembersOf(st, ring, ids[..i]), now) + MemberIfLive(t, ring, ids[i], now)
  {
    ListingGrows(st, ring, ids, now, i);
  }

  /** The expiry row of a listed peer cannot be decoded. */
  ghost predicate ListingFails(t: Tables, ring: Name, ids: seq<Peer>) {
    exists p :: p in ids && ExpiryOf(t.expiries, MemberKey(ring, p)).Err?
  }

  /** The loop of `list_ring_peers`. */
  method ListIds(t: Tables, ring: Name, ids: seq<Peer>, now: Time, ghost st: Store)
    returns (result: Result<seq<Member>>)
    requires forall p :: ReadsMember(t, st, ring, p)
    ensures result.Err? <==> ListingFails(t, ring, ids)
    ensures result.Ok? ==> result.value == Unexpired(MembersOf(st, ring, ids), now)
  {
    var peers := [];
    for i := 0 to |ids|
      invariant peers == Unexpired(MembersOf(st, ring, ids[..i]), now)
      invariant !ListingFails(t, ring, ids[..i])
    {
      assert ids[..i + 1] == ids[..i] + [ids[i]];
      var row := ListedRow(t, ring, ids[i], now);
      if row.Err? {
        assert ids[i] in ids;
        return Err(row.error);
      }
      ListOneMore(t, st, ring, ids, now, i);
      peers := peers + row.value;
    }
    assert ids[..|ids|] == ids;
    result := Ok(peers);
  }

  /** One round of the loop: the member, unless its membership has expired. */
  method ListedRow(t: Tables, ring: Name, peer: Peer, now: Time) returns (result: Result<seq<Member>>)
    ensures result.Err? <==> ExpiryOf(t.expiries, MemberKey(ring, peer)).Err?
    ensures result.Ok? ==> result.value == MemberIfLive(t, ring, peer, now)
  {
    var key := BuildMemberKey(ring, peer);
    var expiresAt := ExpiryOf(t.expiries, key);
    if expiresAt.Err? {
      return Err(expiresAt.error);
    }
    if expiresAt.value.Some? && now >= expiresAt.value.value {
      return Ok([]);
    }
    result := Ok([Member(peer, Get(t.labels, key), expiresAt.value)]);
  }

  method ListRows(t: Tables, ring: Name, now: Time) returns (result: Result<seq<Member>>)
    ensures ListedRows(t, ring, now, result)
  {
    if ring !in t.rings {
      return Err(RingNotFound(ring));
    }
    forall p
      ensures ReadsMember(t, Decoded(t), ring, p)
    {
      DecodedMember(t, ring, p);
    }
    result := ListIds(t, ring, DecodeChunks(t.rings[ring]), now, Decoded(t));
  }

  lemma ListedRowsRefine(t: Tables, st: Store, ring: Name, now: Time, result: Result<seq<Member>>)
    requires Rep(t, st) && Consistent(st) && ListedRows(t, ring, now, result)
    ensures result == RegistrySpec.ListRingPeers(View(st), ring, now)
  {
    if ring in st.rings {
      ReadRing(t, st, ring);
      DecodedIsTheStore(t, st);
      forall p | p in st.rings[ring]
        ensures ExpiryOf(t.expiries, MemberKey(ring, p)).Ok?
      {
        ExpiryOfIsStored(t, st, ring, p, now);
      }
    }
  }

  // ---------------------------------------------------------------- the permission scan

  /** The permission row of the pair has the permission's bit. */
  predicate BitSet(t: Tables, resource: Bytes, ring: Name, permission: Permission) {
    PermKey(resource, ring) in t.perms && t.perms[PermKey(resource, ring)] & PermissionBit(permission) != 0
  }

  predicate ListedPeer(t: Tables, ring: Name, peer: Peer) {
    ring in t.rings && peer in DecodeChunks(t.rings[ring])
  }

  /** What the rows say of one ring: it grants, it does not, or its expiry row is needed and cannot be decoded. */
  function RingSays(t: Tables, resource: Bytes, ring: Name, peer: Peer, permission: Permission, now: Time)
    : (r: Result<bool>)
    ensures r == Ok(true) <==>
            && BitSet(t, resource, ring, permission)
            && (IsOpen(ring) || (ListedPeer(t, ring, peer) && IsExpired(t.expiries, ring, peer, now) == Ok(false)))
    ensures r.Err? <==>
            && BitSet(t, resource, ring, permission)
            && !IsOpen(ring) && ListedPeer(t, ring, peer) && IsExpired(t.expiries, ring, peer, now).Err?
  {
    if !BitSet(t, resource, ring, permission) then Ok(false)
    else if IsOpen(ring) then Ok(true)
    else if !ListedPeer(t, ring, peer) then Ok(false)
    else
      match IsExpired(t.expiries, ring, peer, now)
      case Ok(expired) => Ok(!expired)
      case Err(e) => Err(e)
  }

  /** The permission row's bits, as stored: 1 for `Read`, 2 for `Write`, 4 for `Delete`. */
  lemma StoredBits(t: Tables, resource: Bytes, ring: Name)
    requires PermKey(resource, ring) in t.perms
    ensures var bits := t.perms[PermKey(resource, ring)];
      && (BitSet(t, resource, ring, Read) <==> bits & 1 != 0)
      && (BitSet(t, resource, ring, Write) <==> bits & 2 != 0)
      && (BitSet(t, resource, ring, Delete) <==> bits & 4 != 0)
  {
    BitMeaning(t.perms[PermKey(resource, ring)]);
  }

  /** Which bits `add_ring_to_resource` stores, whatever the order and repetitions of the list. */
  lemma WrittenBits(t: Tables, resource: Bytes, ring: Name, permissions: seq<Permission>)
    ensures var bits := AddRingRows(t, resource, ring, permissions).perms[PermKey(resource, ring)];
      && (bits & 1 != 0 <==> Read in permissions)
      && (bits & 2 != 0 <==> Write in permissions)
      && (bits & 4 != 0 <==> Delete in permissions)
      && bits & 0xF8 == 0
  {
    PermsToByteMeaning(permissions);
    BitMeaning(PermsToByte(permissions));
    assert forall p :: p in permissions <==> p in Elements(permissions);
  }

  /** The first of the rings that does not say no decides. */
  ghost predicate FirstDecides(
    t: Tables, resource: Bytes, names: seq<Name>, peer: Peer, permission: Permission, now: Time, result: Result<bool>)
  {
    if result == Ok(false) then
      forall i :: 0 <= i < |names| ==> RingSays(t, resource, names[i], peer, permission, now) == Ok(false)
    else
      exists i :: 0 <= i < |names| && RingSays(t, resource, names[i], peer, permission, now) == result
                  && forall j :: 0 <= j < i ==> RingSays(t, resource, names[j], peer, permission, now) == Ok(false)
  }

  /** There is one outcome, so a contract that gives it gives the result. */
  lemma FirstDecisionIsUnique(
    t: Tables, resource: Bytes, names: seq<Name>, peer: Peer, permission: Permission, now: Time,
    a: Result<bool>, b: Result<bool>)
    requires FirstDecides(t, resource, names, peer, permission, now, a)
    requires FirstDecides(t, resource, names, peer, permission, now, b)
    ensures a == b
  {
    if a != Ok(false) && b != Ok(false) {
      var i :| 0 <= i < |names| && RingSays(t, resource, names[i], peer, permission, now) == a
               && forall j :: 0 <= j < i ==> RingSays(t, resource, names[j], peer, permission, now) == Ok(false);
      var k :| 0 <= k < |names| && RingSays(t, resource, names[k], peer, permission, now) == b
               && forall j :: 0 <= j < k ==> RingSays(t, resource, names[j], peer, permission, now) == Ok(false);
      assert i == k;
    }
  }

  /** The body of `has_permission`'s loop: one bit test and, for a private ring, one scan of its peer ids. */
  method GrantedThrough(t: Tables, resource: Bytes, ring: Name, peer: Peer, permission: Permission, now: Time)
    returns (result: Result<bool>)
    ensures result == RingSays(t, resource, ring, peer, permission, now)
  {
    var pbit := PermissionBit(permission);
    var key := BuildPermKey(resource, ring);
    var bits := if key in t.perms then t.perms[key] else 0;
    result := Ok(false);
    ZeroAnd(pbit);
    if bits & pbit != 0 {
      if ring == OPEN_RING_NAME {
        result := Ok(true);
      } else if ring in t.rings {
        var found := ContainsChunk(t.rings[ring], peer);
        if found {
          var expired := IsExpired(t.expiries, ring, peer, now);
          result := match expired case Ok(e) => Ok(!e) case Err(e) => Err(e);
        }
      }
    }
  }

  /** The loop of `has_permission`, over the rings of the resource's row. */
  method ScanRings(t: Tables, resource: Bytes, peer: Peer, permission: Permission, now: Time)
    returns (result: Result<bool>)
    ensures FirstDecides(t, resource, StoredNames(t, resource), peer, permission, now, result)
  {
    if resource !in t.resourceRings {
      return Ok(false);
    }
    var names := DecodeRingNames(t.resourceRings[resource]);
    for i := 0 to |names|
      invariant forall j :: 0 <= j < i ==> RingSays(t, resource, names[j], peer, permission, now) == Ok(false)
    {
      result := GrantedThrough(t, resource, names[i], peer, permission, now);
      if result != Ok(false) {
        return;
      }
    }
    result := Ok(false);
  }

  // ---------------------------------------------------------------- the passes of an eviction

  /** An expired row, parsed: its raw key, and the membership it names. */
  datatype ExpiredRow = ExpiredRow(key: Bytes, ring: Name, peer: Peer)

  function RawKeys(expired: seq<ExpiredRow>): set<Bytes> {
    set e | e in expired :: e.key
  }

  function KeysOf(expired: seq<ExpiredRow>): set<Key> {
    set e | e in expired :: (e.ring, e.peer)
  }

  predicate RowFails(rows: map<Bytes, (u64, u32)>, b: Bytes, now: Time)
    requires b in rows
  {
    match DecodeExpiry(rows[b])
    case Err(_) => true
    case Ok(t) => now >= t && SplitMemberKey(b).Err?
  }

  predicate RowExpired(rows: map<Bytes, (u64, u32)>, b: Bytes, now: Time)
    requires b in rows
  {
    DecodeExpiry(rows[b]).Ok? && now >= DecodeExpiry(rows[b]).value
  }

  ghost predicate ParsedRows(expired: seq<ExpiredRow>) {
    && (forall i, j :: 0 <= i < j < |expired| ==> expired[i].key != expired[j].key)
    && (forall e :: e in expired ==> SplitMemberKey(e.key) == Ok((e.ring, e.peer)))
  }

  method CollectExpired(rows: map<Bytes, (u64, u32)>, now: Time) returns (result: Result<seq<ExpiredRow>>)
    ensures result.Err? <==> exists b :: b in rows && RowFails(rows, b, now)
    ensures result.Ok? ==> ParsedRows(result.value)
    ensures result.Ok? ==> RawKeys(result.value) == set b | b in rows && RowExpired(rows, b, now)
  {
    var entries := Iterate(rows.Keys);
    var expired := [];
    for i := 0 to |entries|
      invariant ParsedRows(expired)
      invariant RawKeys(expired) == set b | b in Elements(entries[..i]) && RowExpired(rows, b, now)
      invariant forall b :: b in entries[..i] ==> !RowFails(rows, b, now)
    {
      var key := entries[i];
      assert key in Elements(entries) && key !in entries[..i];
      assert entries[..i + 1] == entries[..i] + [key];
      assert Elements(entries[..i + 1]) == Elements(entries[..i]) + {key};
      var t := DecodeExpiry(rows[key]);
      if t.Err? {
        assert RowFails(rows, key, now);
        return Err(t.error);
      }
      if now >= t.value {
        var parsed := SplitMemberKey(key);
        if parsed.Err? {
          assert RowFails(rows, key, now);
          return Err(parsed.error);
        }
        var row := ExpiredRow(key, parsed.value.0, parsed.value.1);
        assert key !in RawKeys(expired);
        assert RawKeys(expired + [row]) == RawKeys(expired) + {key};
        expired := expired + [row];
      }
    }
    assert entries[..|entries|] == entries;
    assert forall b :: b in rows ==> b in Elements(entries);
    result := Ok(expired);
  }

  method GroupByRing(expired: seq<ExpiredRow>) returns (byRing: map<Name, seq<Peer>>)
    ensures forall ring :: (if ring in byRing then Elements(byRing[ring]) else {}) == PeersIn(KeysOf(expired), ring)
    ensures forall ring :: ring in byRing ==> byRing[ring] != []
  {
    byRing := map[];
    for i := 0 to |expired|
      invariant forall ring ::
                  (if ring in byRing then Elements(byRing[ring]) else {}) == PeersIn(KeysOf(expired[..i]), ring)
      invariant forall ring :: ring in byRing ==> byRing[ring] != []
    {
      var row := expired[i];
      GroupedStep(expired, i);
      var peers := if row.ring in byRing then byRing[row.ring] else [];
      assert Elements(peers + [row.peer]) == Elements(peers) + {row.peer};
      byRing := byRing[row.ring := peers + [row.peer]];
    }
    assert expired[..|expired|] == expired;
  }

  lemma GroupedStep(expired: seq<ExpiredRow>, i: nat)
    requires i < |expired|
    ensures forall ring :: PeersIn(KeysOf(expired[..i + 1]), ring) ==
              PeersIn(KeysOf(expired[..i]), ring) + if ring == expired[i].ring then {expired[i].peer} else {}
  {
    var before, row := KeysOf(expired[..i]), expired[i];
    assert expired[..i + 1] == expired[..i] + [row];
    assert KeysOf(expired[..i + 1]) == before + {(row.ring, row.peer)};
    forall ring
      ensures PeersIn(before + {(row.ring, row.peer)}, ring)
              == PeersIn(before, ring) + if ring == row.ring then {row.peer} else {}
    {
      forall p: Peer
        ensures p in PeersIn(before + {(row.ring, row.peer)}, ring) <==>
                p in PeersIn(before, ring) || (ring == row.ring && p == row.peer)
      {
        KeyInPeersIn(before + {(row.ring, row.peer)}, ring, p);
        KeyInPeersIn(before, ring, p);
      }
    }
  }

  function Rewritten(row: Bytes, gone: set<Peer>): Bytes {
    EncodeChunks(Retain(DecodeChunks(row), gone))
  }

  method RewriteRings(rings: map<Name, Bytes>, byRing: map<Name, seq<Peer>>) returns (rewritten: map<Name, Bytes>)
    ensures rewritten.Keys == rings.Keys
    ensures forall ring :: ring in rings ==>
              rewritten[ring] == if ring in byRing then Rewritten(rings[ring], Elements(byRing[ring])) else rings[ring]
  {
    rewritten := rings;
    var names := Iterate(byRing.Keys);
    for i := 0 to |names|
      invariant rewritten.Keys == rings.Keys
      invariant forall ring :: ring in rings ==>
        rewritten[ring] == if ring in names[..i] then Rewritten(rings[ring], Elements(byRing[ring])) else rings[ring]
    {
      var ring := names[i];
      assert ring in Elements(names) && ring !in names[..i];
      assert names[..i + 1] == names[..i] + [ring];
      if ring in rewritten {
        var members := DecodeChunks(rewritten[ring]);
        members := Retain(members, Elements(byRing[ring]));
        rewritten := rewritten[ring := EncodeChunks(members)];
      }
    }
    assert names[..|names|] == names;
    assert forall ring :: ring in byRing ==> ring in Elements(names);
  }

  method DropRows(labels: map<Bytes, Label>, expiries: map<Bytes, (u64, u32)>, expired: seq<ExpiredRow>)
    returns (labels': map<Bytes, Label>, expiries': map<Bytes, (u64, u32)>, evicted: seq<Key>)
    ensures labels' == labels - RawKeys(expired)
    ensures expiries' == expiries - RawKeys(expired)
    ensures |evicted| == |expired|
    ensures forall i :: 0 <= i < |expired| ==> evicted[i] == (expired[i].ring, expired[i].peer)
  {
    labels', expiries', evicted := labels, expiries, [];
    for i := 0 to |expired|
      invariant labels' == labels - RawKeys(expired[..i])
      invariant expiries' == expiries - RawKeys(expired[..i])
      invariant |evicted| == i && forall j :: 0 <= j < i ==> evicted[j] == (expired[j].ring, expired[j].peer)
    {
      assert expired[..i + 1] == expired[..i] + [expired[i]];
      assert RawKeys(expired[..i + 1]) == RawKeys(expired[..i]) + {expired[i].key};
      labels' := labels' - {expired[i].key};
      expiries' := expiries' - {expired[i].key};
      evicted := evicted + [(expired[i].ring, expired[i].peer)];
    }
    assert expired[..|expired|] == expired;
  }

  /** A row of a representing table never fails to decode, and its ring exists. */
  lemma StoredRow(t: Tables, st: Store, b: Bytes, now: Time)
    requires Rep(t, st) && NoOrphans(st) && b in t.expiries
    ensures !RowFails(t.expiries, b, now)
    ensures IsRowKey(b) && SplitMemberKey(b).value.0 in t.rings
  {
    assert IsRowKey(b);
    var k := SplitMemberKey(b).value;
    assert k in st.expiries;
    ReadExpiry(t, st, k);
    assert RowsHaveMember(st, k);
  }

  /** So an eviction never stops half-way, nor meets a row whose ring is missing. */
  lemma NoRowFails(t: Tables, st: Store, now: Time)
    requires Rep(t, st) && NoOrphans(st)
    ensures forall b :: b in t.expiries ==> !RowFails(t.expiries, b, now)
    ensures forall b :: b in t.expiries ==> IsRowKey(b) && SplitMemberKey(b).value.0 in t.rings
  {
    forall b | b in t.expiries
      ensures !RowFails(t.expiries, b, now)
      ensures IsRowKey(b) && SplitMemberKey(b).value.0 in t.rings
    {
      StoredRow(t, st, b, now);
    }
  }

  /** Under representation, the collected rows are the expired memberships, by raw key and by name. */
  lemma CollectedKeys(t: Tables, st: Store, now: Time, expired: seq<ExpiredRow>)
    requires Rep(t, st) && ParsedRows(expired)
    requires RawKeys(expired) == set b | b in t.expiries && RowExpired(t.expiries, b, now)
    ensures forall e :: e in expired ==> RowKey((e.ring, e.peer)) == e.key
    ensures KeysOf(expired) == ExpiredKeys(st, now)
    ensures RawKeys(expired) == set k | k in ExpiredKeys(st, now) :: RowKey(k)
  {
    forall e | e in expired
      ensures RowKey((e.ring, e.peer)) == e.key && (e.ring, e.peer) in ExpiredKeys(st, now)
    {
      assert e.key in RawKeys(expired);
      assert IsRowKey(e.key);
      ReadExpiry(t, st, (e.ring, e.peer));
    }
    forall k | k in ExpiredKeys(st, now)
      ensures RowKey(k) in RawKeys(expired) && k in KeysOf(expired)
    {
      ExpiredIsCollected(t, st, now, expired, k);
    }
  }

  lemma ExpiredIsCollected(t: Tables, st: Store, now: Time, expired: seq<ExpiredRow>, k: Key)
    requires Rep(t, st) && ParsedRows(expired)
    requires RawKeys(expired) == set b | b in t.expiries && RowExpired(t.expiries, b, now)
    requires k in ExpiredKeys(st, now)
    ensures RowKey(k) in RawKeys(expired) && k in KeysOf(expired)
  {
    ReadExpiry(t, st, k);
    assert RowKey(k) in RawKeys(expired);
    var e :| e in expired && e.key == RowKey(k);
    SplitInvertsMemberKey(k.0, k.1);
  }

  lemma EvictRep(t: Tables, st: Store, now: Time, expired: seq<ExpiredRow>, byRing: map<Name, seq<Peer>>, t': Tables)
    requires Rep(t, st)
    requires KeysOf(expired) == ExpiredKeys(st, now)
    requires RawKeys(expired) == set k | k in ExpiredKeys(st, now) :: RowKey(k)
    requires forall ring :: (if ring in byRing then Elements(byRing[ring]) else {}) == PeersIn(KeysOf(expired), ring)
    requires t'.rings.Keys == t.rings.Keys
    requires forall ring :: ring in t.rings ==>
               t'.rings[ring] ==
               if ring in byRing then Rewritten(t.rings[ring], Elements(byRing[ring])) else t.rings[ring]
    requires t' == t.(rings := t'.rings, labels := t.labels - RawKeys(expired),
             expiries := t.expiries - RawKeys(expired))
    ensures Rep(t', WithoutKeys(st, ExpiredKeys(st, now)))
  {
    var ks := ExpiredKeys(st, now);
    forall ring | ring in st.rings
      ensures t'.rings[ring] == EncodeChunks(Retain(st.rings[ring], PeersIn(ks, ring)))
    {
      ReadRing(t, st, ring);
      RetainNone(st.rings[ring]);
    }
    RowsRemove(t.labels, st.labels, ks);
    DropExpiries(t.expiries, st.expiries, ks);
  }

  lemma EvictionRefines(
    t: Tables, st: Store, now: Time, expired: seq<ExpiredRow>, byRing: map<Name, seq<Peer>>, t': Tables,
    evicted: seq<Key>)
    requires Rep(t, st) && Consistent(st) && ParsedRows(expired)
    requires RawKeys(expired) == set b | b in t.expiries && RowExpired(t.expiries, b, now)
    requires forall ring :: (if ring in byRing then Elements(byRing[ring]) else {}) == PeersIn(KeysOf(expired), ring)
    requires t'.rings.Keys == t.rings.Keys
    requires forall ring :: ring in t.rings ==>
               t'.rings[ring] ==
               if ring in byRing then Rewritten(t.rings[ring], Elements(byRing[ring])) else t.rings[ring]
    requires t' == t.(rings := t'.rings, labels := t.labels - RawKeys(expired),
             expiries := t.expiries - RawKeys(expired))
    requires |evicted| == |expired|
    requires forall i :: 0 <= i < |expired| ==> evicted[i] == (expired[i].ring, expired[i].peer)
    ensures var st' := WithoutKeys(st, ExpiredKeys(st, now));
      Rep(t', st') && Consistent(st') && View(st') == Evict(View(st), now)
    ensures NoDuplicates(evicted) && Elements(evicted) == Evicted(View(st), now)
  {
    CollectedKeys(t, st, now, expired);
    EvictRep(t, st, now, expired, byRing, t');
    EvictRefines(st, now);
    EvictedOnce(expired, evicted);
  }

  lemma EvictedOnce(expired: seq<ExpiredRow>, evicted: seq<Key>)
    requires ParsedRows(expired)
    requires forall e :: e in expired ==> RowKey((e.ring, e.peer)) == e.key
    requires |evicted| == |expired|
    requires forall i :: 0 <= i < |expired| ==> evicted[i] == (expired[i].ring, expired[i].peer)
    ensures NoDuplicates(evicted) && Elements(evicted) == KeysOf(expired)
  {
    forall i | 0 <= i < |expired|
      ensures RowKey(evicted[i]) == expired[i].key && evicted[i] in KeysOf(expired)
    {
      assert expired[i] in expired;
    }
    forall k | k in KeysOf(expired)
      ensures k in evicted
    {
      var e :| e in expired && k == (e.ring, e.peer);
      var i :| 0 <= i < |expired| && expired[i] == e;
      assert evicted[i] == k;
    }
  }

  /** Some expiry row cannot be decoded, or an expired one names no member. */
  ghost predicate EvictionFails(t: Tables, now: Time) {
    exists b :: b in t.expiries && RowFails(t.expiries, b, now)
  }

  /** The memberships that raw keys name. */
  ghost function NamedBy(rows: set<Bytes>): set<Key> {
    set b | b in rows && SplitMemberKey(b).Ok? :: SplitMemberKey(b).value
  }

  ghost function ExpiredRows(t: Tables, now: Time): set<Bytes> {
    set b | b in t.expiries && RowExpired(t.expiries, b, now)
  }

  /** Each of the rows is reported once, in some order. */
  ghost predicate Reports(keys: seq<Bytes>, rows: set<Bytes>, evicted: seq<Key>) {
    && NoDuplicates(keys) && Elements(keys) == rows && |evicted| == |keys|
    && forall i :: 0 <= i < |keys| ==> SplitMemberKey(keys[i]) == Ok(evicted[i])
  }

  ghost function RowWithout(row: Bytes, gone: set<Peer>): Bytes {
    if gone == {} then row else Rewritten(row, gone)
  }

  /** What an eviction makes of any tables: the expired rows go, and the members they name from the rings they name. */
  ghost predicate EvictedRows(t: Tables, now: Time, t': Tables, evicted: seq<Key>) {
    var gone := ExpiredRows(t, now);
    && t' == t.(rings := t'.rings, labels := t.labels - gone, expiries := t.expiries - gone)
    && t'.rings.Keys == t.rings.Keys
    && (forall ring :: ring in t.rings ==> t'.rings[ring] == RowWithout(t.rings[ring], PeersIn(NamedBy(gone), ring)))
    && exists keys :: Reports(keys, gone, evicted)
  }

  lemma ParsedRowsName(expired: seq<ExpiredRow>)
    requires ParsedRows(expired)
    ensures KeysOf(expired) == NamedBy(RawKeys(expired))
  {
    forall e | e in expired
      ensures (e.ring, e.peer) in NamedBy(RawKeys(expired))
    {
      assert e.key in RawKeys(expired);
    }
  }

  lemma RowsReported(expired: seq<ExpiredRow>, evicted: seq<Key>)
    requires ParsedRows(expired)
    requires |evicted| == |expired|
    requires forall i :: 0 <= i < |expired| ==> evicted[i] == (expired[i].ring, expired[i].peer)
    ensures exists keys :: Reports(keys, RawKeys(expired), evicted)
  {
    var keys := seq(|expired|, i requires 0 <= i < |expired| => expired[i].key);
    forall i | 0 <= i < |expired|
      ensures SplitMemberKey(keys[i]) == Ok(evicted[i]) && keys[i] in RawKeys(expired)
    {
      assert expired[i] in expired;
    }
    forall e | e in expired
      ensures e.key in keys
    {
      var i :| 0 <= i < |expired| && expired[i] == e;
      assert keys[i] == e.key;
    }
    assert Reports(keys, RawKeys(expired), evicted);
  }

  lemma RowsEvicted(
    t: Tables, now: Time, expired: seq<ExpiredRow>, byRing: map<Name, seq<Peer>>, t': Tables, evicted: seq<Key>)
    requires ParsedRows(expired) && RawKeys(expired) == ExpiredRows(t, now)
    requires forall ring :: (if ring in byRing then Elements(byRing[ring]) else {}) == PeersIn(KeysOf(expired), ring)
    requires forall ring :: ring in byRing ==> byRing[ring] != []
    requires t'.rings.Keys == t.rings.Keys
    requires forall ring :: ring in t.rings ==>
               t'.rings[ring] ==
               if ring in byRing then Rewritten(t.rings[ring], Elements(byRing[ring])) else t.rings[ring]
    requires t' == t.(rings := t'.rings, labels := t.labels - RawKeys(expired),
             expiries := t.expiries - RawKeys(expired))
    requires |evicted| == |expired|
    requires forall i :: 0 <= i < |expired| ==> evicted[i] == (expired[i].ring, expired[i].peer)
    ensures EvictedRows(t, now, t', evicted)
  {
    ParsedRowsName(expired);
    RowsReported(expired, evicted);
    forall ring | ring in t.rings
      ensures t'.rings[ring] == RowWithout(t.rings[ring], PeersIn(KeysOf(expired), ring))
    {
      if ring in byRing {
        assert byRing[ring][0] in Elements(byRing[ring]);
      }
    }
  }

  /** The write transaction of `evict_expired`: three passes over the rows. */
  method EvictRows(t: Tables, now: Time, ghost st: Store)
    returns (result: Result<(Tables, seq<Key>)>, ghost kept: Store)
    ensures result.Err? <==> EvictionFails(t, now)
    ensures result.Ok? ==>
              && SameSchema(t, result.value.0) && SameNames(t, result.value.0)
              && EvictedRows(t, now, result.value.0, result.value.1)
    ensures Rep(t, st) && Consistent(st) ==>
              && result.Ok?
              && Rep(result.value.0, kept) && Consistent(kept) && View(kept) == Evict(View(st), now)
              && NoDuplicates(result.value.1) && Elements(result.value.1) == Evicted(View(st), now)
  {
    kept := WithoutKeys(st, ExpiredKeys(st, now));
    var collected := CollectExpired(t.expiries, now);
    if Rep(t, st) && Consistent(st) { NoRowFails(t, st, now); }
    if collected.Err? {
      result := Err(collected.error);
      return;
    }
    var expired := collected.value;
    var byRing := GroupByRing(expired);
    var rings := RewriteRings(t.rings, byRing);
    var labels, expiries, evicted := DropRows(t.labels, t.expiries, expired);
    var write := t.(rings := rings, labels := labels, expiries := expiries);
    RowsEvicted(t, now, expired, byRing, write, evicted);
    if Rep(t, st) && Consistent(st) {
      EvictionRefines(t, st, now, expired, byRing, write, evicted);
    }
    result := Ok((write, evicted));
  }

  // ---------------------------------------------------------------- the steps, on tables

  /** A peer joins a ring: appended, or if its membership has expired, without its old label and expiry. */
  function JoinedRows(t: Tables, ring: Name, peer: Peer, now: Time): (t': Tables)
    requires ring in t.rings
    ensures SameSchema(t, t') && SameNames(t, t')
  {
    var members := DecodeChunks(t.rings[ring]);
    if peer !in members then t.(rings := t.rings[ring := EncodeChunks(members + [peer])])
    else if IsExpired(t.expiries, ring, peer, now) == Ok(true)
    then t.(labels := t.labels - {MemberKey(ring, peer)}, expiries := t.expiries - {MemberKey(ring, peer)})
    else t
  }

  function LabelledRows(t: Tables, key: Bytes, lbl: Option<Label>): (t': Tables)
    ensures SameSchema(t, t') && SameNames(t, t')
  {
    if lbl.Some? then t.(labels := t.labels[key := lbl.value]) else t
  }

  function ExpiringRows(t: Tables, key: Bytes, expiresAt: Option<Time>): (t': Tables)
    ensures SameSchema(t, t') && SameNames(t, t')
  {
    if expiresAt.Some? then t.(expiries := t.expiries[key := EncodeExpiry(expiresAt.value)]) else t
  }

  /** The rows after `add_peer_to_ring`. */
  function AddedRows(t: Tables, ring: Name, peer: Peer, lbl: Option<Label>, expiresAt: Option<Time>, now: Time)
    : (t': Tables)
    requires ring in t.rings
    ensures SameSchema(t, t') && SameNames(t, t')
  {
    var key := MemberKey(ring, peer);
    ExpiringRows(LabelledRows(JoinedRows(t, ring, peer, now), key, lbl), key, expiresAt)
  }

  /** Adding is refused only when the peer is listed and its expiry row cannot be decoded. */
  method JoinRows(t: Tables, ring: Name, peer: Peer, now: Time) returns (result: Result<Tables>)
    requires ring in t.rings
    ensures result.Err? <==> ListedPeer(t, ring, peer) && IsExpired(t.expiries, ring, peer, now).Err?
    ensures result.Ok? ==> result.value == JoinedRows(t, ring, peer, now)
  {
    var members := DecodeChunks(t.rings[ring]);
    var key := BuildMemberKey(ring, peer);
    result := Ok(t);
    if peer !in members {
      members := members + [peer];
      result := Ok(t.(rings := t.rings[ring := EncodeChunks(members)]));
    } else {
      var expired := IsExpired(t.expiries, ring, peer, now);
      if expired.Err? {
        result := Err(expired.error);
      } else if expired.value {
        // An expired membership counts as removed: its label and expiry go.
        result := Ok(t.(labels := t.labels - {key}, expiries := t.expiries - {key}));
      }
    }
  }

  /** The write transaction of `add_peer_to_ring`. */
  method AddPeerRows(
    t: Tables, ring: Name, peer: Peer, lbl: Option<Label>, expiresAt: Option<Time>, now: Time, ghost st: Store)
    returns (result: Result<Tables>, ghost added: Store)
    requires ring in t.rings
    ensures result.Err? <==> ListedPeer(t, ring, peer) && IsExpired(t.expiries, ring, peer, now).Err?
    ensures result.Ok? ==> SameSchema(t, result.value) && SameNames(t, result.value)
    ensures Rep(t, st) && Consistent(st) ==>
              && result.Ok? && Rep(result.value, added) && Consistent(added)
              && (View(added), Ok(())) == AddPeer(View(st), ring, peer, lbl, ClampOption(expiresAt), now)
  {
    added := st;
    if Rep(t, st) && Consistent(st) {
      added := AddPeerIn(st, ring, peer, lbl, ClampOption(expiresAt), now);
      AddedRowsHold(t, st, ring, peer, lbl, expiresAt, now);
    }
    result := JoinRows(t, ring, peer, now);
    if result.Err? {
      return;
    }
    var key := BuildMemberKey(ring, peer);
    var write := result.value;
    if lbl.Some? {
      write := write.(labels := write.labels[key := lbl.value]);
    }
    if expiresAt.Some? {
      write := write.(expiries := write.expiries[key := EncodeExpiry(expiresAt.value)]);
    }
    result := Ok(write);
  }

  /** On tables that hold a registry, adding succeeds and is the addition. */
  lemma AddedRowsHold(
    t: Tables, st: Store, ring: Name, peer: Peer, lbl: Option<Label>, expiresAt: Option<Time>, now: Time)
    requires Rep(t, st) && Consistent(st) && ring in t.rings
    ensures IsExpired(t.expiries, ring, peer, now).Ok?
    ensures var st' := AddPeerIn(st, ring, peer, lbl, ClampOption(expiresAt), now);
      && Rep(AddedRows(t, ring, peer, lbl, expiresAt, now), st')
      && Consistent(st')
      && (View(st'), Ok(())) == AddPeer(View(st), ring, peer, lbl, ClampOption(expiresAt), now)
  {
    assert ring in View(st).rings;
    ExpiryOfIsStored(t, st, ring, peer, now);
    AddPeerRep(t, st, ring, peer, lbl, expiresAt, now);
    AddPeerRefines(st, ring, peer, lbl, ClampOption(expiresAt), now);
  }

  lemma AddPeerRep(
    t: Tables, st: Store, ring: Name, peer: Peer, lbl: Option<Label>, expiresAt: Option<Time>, now: Time)
    requires Rep(t, st) && ring in t.rings
    ensures Rep(AddedRows(t, ring, peer, lbl, expiresAt, now),
            AddPeerIn(st, ring, peer, lbl, ClampOption(expiresAt), now))
  {
    var k, st1, joined := (ring, peer), JoinedIn(st, ring, peer, now), JoinedRows(t, ring, peer, now);
    JoinRefines(t, st, ring, peer, now);
    LabelRefines(joined, st1, k, lbl);
    ExpiryRefines(LabelledRows(joined, RowKey(k), lbl), LabelledIn(st1, k, lbl), k, expiresAt);
  }

  lemma StartFreshRep(t: Tables, st: Store, k: Key)
    requires Rep(t, st)
    ensures Rep(t.(labels := t.labels - {RowKey(k)}, expiries := t.expiries - {RowKey(k)}),
                st.(labels := st.labels - {k}, expiries := st.expiries - {k}))
  {
    RowRemove(t.labels, st.labels, k);
    DropExpiry(t.expiries, st.expiries, k);
  }

  lemma NewPeerRep(t: Tables, st: Store, ring: Name, peer: Peer)
    requires Rep(t, st) && ring in st.rings
    ensures Rep(t.(rings := t.rings[ring := EncodeChunks(st.rings[ring] + [peer])]),
                st.(rings := st.rings[ring := st.rings[ring] + [peer]]))
  {
    WriteRing(t.rings, st, ring, st.rings[ring] + [peer]);
  }

  lemma JoinRefines(t: Tables, st: Store, ring: Name, peer: Peer, now: Time)
    requires Rep(t, st) && ring in t.rings
    ensures Rep(JoinedRows(t, ring, peer, now), JoinedIn(st, ring, peer, now))
  {
    ReadRing(t, st, ring);
    if peer !in st.rings[ring] {
      NewPeerRep(t, st, ring, peer);
    } else {
      ExpiryOfIsStored(t, st, ring, peer, now);
      StartFreshRep(t, st, (ring, peer));
    }
  }

  lemma LabelRefines(t: Tables, st: Store, k: Key, lbl: Option<Label>)
    requires Rep(t, st)
    ensures Rep(LabelledRows(t, RowKey(k), lbl), LabelledIn(st, k, lbl))
  {
    if lbl.Some? {
      RowInsert(t.labels, st.labels, k, lbl.value);
    }
  }

  lemma ExpiryRefines(t: Tables, st: Store, k: Key, expiresAt: Option<Time>)
    requires Rep(t, st)
    ensures Rep(ExpiringRows(t, RowKey(k), expiresAt), ExpiringIn(st, k, ClampOption(expiresAt)))
  {
    if expiresAt.Some? {
      WriteExpiry(t.expiries, st.expiries, k, expiresAt.value);
    }
  }

  lemma RemoveRefines(t: Tables, st: Store, ring: Name, peer: Peer)
    requires Rep(t, st) && ring in st.rings
    ensures var key := MemberKey(ring, peer);
      Rep(t.(rings := t.rings[ring := EncodeChunks(Retain(st.rings[ring], {peer}))],
             labels := t.labels - {key}, expiries := t.expiries - {key}),
          RemovePeerIn(st, ring, peer))
  {
    var k := (ring, peer);
    assert RowKey(k) == MemberKey(ring, peer);
    WriteRing(t.rings, st, ring, Retain(st.rings[ring], {peer}));
    RowRemove(t.labels, st.labels, k);
    DropExpiry(t.expiries, st.expiries, k);
  }

  lemma BitIsPermission(t: Tables, resource: Bytes, a: Association, permission: Permission)
    requires PermRow(t.perms, resource, a)
    ensures BitSet(t, resource, a.ring, permission) <==> permission in a.permissions
  {
    assert permission in PermsOfByte(t.perms[PermKey(resource, a.ring)]) <==> permission in a.permissions;
  }

  lemma ListedIsLive(t: Tables, st: Store, ring: Name, peer: Peer, now: Time)
    requires Rep(t, st) && ring in st.rings
    ensures IsExpired(t.expiries, ring, peer, now).Ok?
    ensures ListedPeer(t, ring, peer) && IsExpired(t.expiries, ring, peer, now) == Ok(false)
            <==> LiveMember(View(st).rings[ring], peer, now)
  {
    ReadRing(t, st, ring);
    ExpiryOfIsStored(t, st, ring, peer, now);
    LiveMemberInStore(st, ring, peer, now);
  }

  lemma RingSaysPlainly(t: Tables, resource: Bytes, ring: Name, peer: Peer, permission: Permission, now: Time)
    requires IsExpired(t.expiries, ring, peer, now).Ok?
    ensures RingSays(t, resource, ring, peer, permission, now) ==
            Ok(BitSet(t, resource, ring, permission)
               && (IsOpen(ring) || (ListedPeer(t, ring, peer) && IsExpired(t.expiries, ring, peer, now) == Ok(false))))
  {
  }

  lemma AssociationRows(t: Tables, st: Store, resource: Bytes, i: nat)
    requires Rep(t, st) && Consistent(st)
    requires resource in st.resources && i < |st.resources[resource]|
    ensures st.resources[resource][i].ring in st.rings
    ensures PermRow(t.perms, resource, st.resources[resource][i])
  {
    ReadResource(t, st, resource);
    assert NamesOf(st.resources[resource])[i] == st.resources[resource][i].ring;
    ReadPermission(t, st, resource, i);
  }

  /** What the rows say of one ring, on tables that hold a registry, is what its association grants. */
  lemma RawGrant(t: Tables, st: Store, peer: Peer, resource: Bytes, a: Association, permission: Permission, now: Time)
    requires Rep(t, st) && a.ring in st.rings && PermRow(t.perms, resource, a)
    ensures RingSays(t, resource, a.ring, peer, permission, now) == Ok(Grants(View(st), a, peer, permission, now))
  {
    BitIsPermission(t, resource, a, permission);
    ListedIsLive(t, st, a.ring, peer, now);
    RingSaysPlainly(t, resource, a.ring, peer, permission, now);
  }

  /** What the rows decide is what the registry decides. */
  lemma ScanRefines(
    t: Tables, st: Store, peer: Peer, resource: Bytes, permission: Permission, now: Time, result: Result<bool>)
    requires Rep(t, st) && Consistent(st)
    requires FirstDecides(t, resource, StoredNames(t, resource), peer, permission, now, result)
    ensures result == Ok(RegistrySpec.HasPermission(View(st), peer, resource, permission, now))
  {
    var entries, names := EntriesOf(View(st).resources, resource), StoredNames(t, resource);
    StoredNamesAre(t, st, resource);
    forall i | 0 <= i < |entries|
      ensures RingSays(t, resource, names[i], peer, permission, now)
              == Ok(Grants(View(st), entries[i], peer, permission, now))
    {
      AssociationRows(t, st, resource, i);
      RawGrant(t, st, peer, resource, entries[i], permission, now);
    }
    if result != Ok(false) {
      var i :| 0 <= i < |names| && RingSays(t, resource, names[i], peer, permission, now) == result;
      GrantedBy(View(st), resource, i, peer, permission, now);
    }
  }

  // ---------------------------------------------------------------- a shared key and the open ring

  /**
   A new resource, with a valid ring name, whose association shares its key with that of a longer id and the
   open ring.
   */
  lemma OpenRingSharesKey(longer: Bytes)
    requires |longer| % 0x1_0000 == 0 && CleanName(longer + OPEN_RING_NAME)
    ensures ValidName(longer + OPEN_RING_NAME)
    ensures PermKey([], longer + OPEN_RING_NAME) == PermKey(longer, OPEN_RING_NAME)
  {
    PermKeysEqual([], longer + OPEN_RING_NAME, longer, OPEN_RING_NAME);
    assert [] + (longer + OPEN_RING_NAME) == longer + OPEN_RING_NAME;
  }

  lemma OverwrittenBits(t: Tables, resource: Bytes, ring: Name, longer: Bytes)
    requires PermKey(resource, ring) == PermKey(longer, OPEN_RING_NAME)
    ensures BitSet(AddRingRows(t, resource, ring, [Read, Write]), longer, OPEN_RING_NAME, Write)
  {
    PermsToByteMeaning([Read, Write]);
    assert Write in Elements([Read, Write]);
    assert Write in PermsOfByte(PermsToByte([Read, Write]));
  }

  /** Where every expiry row can be decoded, a ring of the row that grants decides. */
  lemma GrantingRingDecides(
    t: Tables, resource: Bytes, ring: Name, peer: Peer, permission: Permission, now: Time, result: Result<bool>)
    requires forall n :: n in StoredNames(t, resource) ==> IsExpired(t.expiries, n, peer, now).Ok?
    requires ring in StoredNames(t, resource) && RingSays(t, resource, ring, peer, permission, now) == Ok(true)
    requires FirstDecides(t, resource, StoredNames(t, resource), peer, permission, now, result)
    ensures result == Ok(true)
  {
    var names := StoredNames(t, resource);
    forall i | 0 <= i < |names|
      ensures RingSays(t, resource, names[i], peer, permission, now).Ok?
    {
      RingSaysPlainly(t, resource, names[i], peer, permission, now);
    }
    var i :| 0 <= i < |names| && names[i] == ring;
    assert RingSays(t, resource, names[i], peer, permission, now) == Ok(true);
  }

  /**
   The open ring carries more than `Read` in redb's tables: if an id `longer` is open, associating another
   resource under the same key with `Read` and `Write` gives every peer `Write` on `longer`.
   */
  lemma SharedKeyOpensWrite(
    t: Tables, st: Store, resource: Bytes, ring: Name, longer: Bytes, peer: Peer, now: Time, result: Result<bool>)
    requires Rep(t, st) && Consistent(st)
    requires resource != longer && PermKey(resource, ring) == PermKey(longer, OPEN_RING_NAME)
    requires OPEN_RING_NAME in StoredNames(t, longer)
    requires var t' := AddRingRows(t, resource, ring, [Read, Write]);
      FirstDecides(t', longer, StoredNames(t', longer), peer, Write, now, result)
    ensures result == Ok(true)
  {
    var t' := AddRingRows(t, resource, ring, [Read, Write]);
    assert StoredNames(t', longer) == StoredNames(t, longer);
    OverwrittenBits(t, resource, ring, longer);
    OpenRingSays(t', longer, peer, Write, now);
    forall n
      ensures IsExpired(t'.expiries, n, peer, now).Ok?
    {
      ExpiryOfIsStored(t, st, n, peer, now);
    }
    GrantingRingDecides(t', longer, OPEN_RING_NAME, peer, Write, now, result);
  }

  lemma OpenRingSays(t: Tables, resource: Bytes, peer: Peer, permission: Permission, now: Time)
    requires BitSet(t, resource, OPEN_RING_NAME, permission)
    ensures RingSays(t, resource, OPEN_RING_NAME, peer, permission, now) == Ok(true)
  {
  }
}
