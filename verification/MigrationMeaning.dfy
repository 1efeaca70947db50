/**
 What opening a database of an earlier version means for access. Version 0: the rings, members and labels it
 had, `Read` for every association it had, and nothing else. Later versions: what they had, but for labels.
 */
module MigrationMeaning {
  import opened Types
  import opened Ring
  import opened RegistrySpec
  import opened RegistryInvariants
  import opened Eviction
  import opened Store
  import opened Encoding
  import opened RedbCodec
  import opened RedbTables
  import opened RedbInvariant
  import opened Migrations
  import D = Database
  import R = Redb

  /** A resource row of version 0: names of rings there are, none twice. */
  ghost predicate GoodV0Resource(t: Tables, resource: Bytes) {
    resource in t.resourceRings ==>
      var names := DecodeRingNames(t.resourceRings[resource]);
      && NoDuplicates(names)
      && forall ring :: ring in names ==> ring in t.rings || IsOpen(ring)
  }

  ghost predicate GoodV0Nickname(t: Tables, b: Bytes) {
    b in t.nicknames ==> MemberRowKey(t, b)
  }

  /** A version 0 database as that version left it: rings, associations and nicknames, and no other row. */
  ghost predicate WellFormedV0(t: Tables) {
    && ReadVersion(t) == 0
    && t.perms == map[] && t.labels == map[] && t.expiries == map[]
    && (NicknamesTable in t.present || t.nicknames == map[])
    && (forall ring :: GoodRingRow(t, ring))
    && (forall resource :: GoodV0Resource(t, resource))
    && (forall b :: GoodV0Nickname(t, b))
  }

  // ---------------------------------------------------------------- the rows after migration

  /**
   `t'` has the rows that `open` leaves of `t`, a version 0 database: each nickname is the label under the same
   key.
   */
  ghost predicate RowsFromV0(t: Tables, t': Tables) {
    && t'.rings == Bootstrapped(t).rings
    && t'.resourceRings == t.resourceRings
    && t'.labels == t.nicknames
    && t'.expiries == map[]
    && t'.perms == Backfilled(map[], AssociationKeys(t.resourceRings, t.resourceRings.Keys))
    && t'.nicknames == map[] && NicknamesTable !in t'.present
  }

  lemma MigratedRows(t: Tables)
    requires WellFormedV0(t)
    ensures RowsFromV0(t, Opened(t))
  {
    OpenedFrom(t);
    var b := Bootstrapped(t);
    var t1 := V0ToV1(b);
    V0ToV1Rows(b);
    V1ToV2Rows(t1);
    V2ToV3Rows(V1ToV2(t1));
    assert NicknameRows(b) == t.nicknames;
    assert t1.labels + t.nicknames == t.nicknames;
  }

  lemma V0ToV1Rows(t: Tables)
    ensures var t' := V0ToV1(t);
      && t'.rings == t.rings && t'.resourceRings == t.resourceRings && t'.labels == t.labels
      && t'.expiries == t.expiries && NicknameRows(t') == NicknameRows(t)
      && t'.perms == Backfilled(t.perms, AssociationKeys(t.resourceRings, t.resourceRings.Keys))
  {
  }

  lemma V1ToV2Rows(t: Tables)
    ensures var t' := V1ToV2(t);
      && t'.rings == t.rings && t'.resourceRings == t.resourceRings && t'.labels == t.labels + NicknameRows(t)
      && t'.expiries == t.expiries && t'.perms == t.perms && t'.nicknames == map[]
      && NicknamesTable !in t'.present
  {
    assert t.labels + map[] == t.labels;
  }

  lemma V2ToV3Rows(t: Tables)
    ensures var t' := V2ToV3(t);
      t' == t.(present := t'.present, meta := t'.meta) && t'.present == t.present + {MetaTable}
  {
  }

  /**
   From any version 0 tables, permission rows there were are kept as they are, every association without one
   gets the row that grants `Read`, and there is no other.
   */
  lemma PermissionRowsFromV0(t: Tables, b: Bytes)
    requires ReadVersion(t) == 0
    ensures b in t.perms ==> b in Opened(t).perms && Opened(t).perms[b] == t.perms[b]
    ensures b !in t.perms ==>
              (b in Opened(t).perms <==> exists resource, ring :: KeyOfRow(t, resource, ring, b))
    ensures b in Opened(t).perms && b !in t.perms ==> Opened(t).perms[b] == 1
  {
    OpenedFrom(t);
    var boot := Bootstrapped(t);
    V0ToV1Rows(boot);
    V1ToV2Rows(V0ToV1(boot));
    V2ToV3Rows(V1ToV2(V0ToV1(boot)));
    var keys := AssociationKeys(t.resourceRings, t.resourceRings.Keys);
    assert Opened(t).perms == Backfilled(t.perms, keys);
    if resource, ring :| KeyOfRow(t, resource, ring, b) {
      assert b in PermKeysOf(resource, t.resourceRings[resource]);
      assert b in keys;
    }
    if b in keys {
      var resource :| resource in t.resourceRings && b in PermKeysOf(resource, t.resourceRings[resource]);
      var ring :| ring in DecodeRingNames(t.resourceRings[resource]) && b == PermKey(resource, ring);
      assert KeyOfRow(t, resource, ring, b);
    }
  }

  lemma BackfilledRow(t: Tables, resource: Bytes, ring: Name)
    requires WellFormedV0(t)
    requires resource in t.resourceRings && ring in DecodeRingNames(t.resourceRings[resource])
    ensures PermKey(resource, ring) in Opened(t).perms
  {
    MigratedRows(t);
    assert PermKey(resource, ring) in PermKeysOf(resource, t.resourceRings[resource]);
  }

  lemma BackfilledKey(t: Tables, b: Bytes)
    requires WellFormedV0(t)
    ensures GoodPermKey(Opened(t), b)
    ensures b in Opened(t).perms ==> Opened(t).perms[b] == READ_BIT
  {
    MigratedRows(t);
    if b in Opened(t).perms {
      var r :| r in t.resourceRings && b in PermKeysOf(r, t.resourceRings[r]);
      var n :| n in DecodeRingNames(t.resourceRings[r]) && b == PermKey(r, n);
      assert KeyOfRow(Opened(t), r, n, b);
    }
  }

  lemma BootstrappedRingRow(t: Tables, ring: Name)
    requires WellFormedV0(t)
    ensures GoodRingRow(Opened(t), ring)
  {
    MigratedRows(t);
    assert GoodRingRow(t, ring);
    if IsOpen(ring) && ring !in t.rings {
      InitialIsWellFormed();
      assert GoodRing(INITIAL, ring);
      assert DecodeChunks(EncodeChunks([])) == [];
    }
  }

  lemma MigratedResource(t: Tables, resource: Bytes)
    requires WellFormedV0(t)
    ensures GoodResourceRow(Opened(t), resource)
  {
    MigratedRows(t);
    assert GoodV0Resource(t, resource);
    if resource in t.resourceRings {
      forall ring | ring in DecodeRingNames(t.resourceRings[resource])
        ensures GoodPermRow(Opened(t), resource, ring)
      {
        BackfilledRow(t, resource, ring);
        BackfilledKey(t, PermKey(resource, ring));
        ReadByte();
      }
    }
  }

  /** The migrated tables satisfy the invariant of the current schema. */
  lemma MigrationEstablishesInvariant(t: Tables)
    requires WellFormedV0(t)
    ensures RawInvariant(Opened(t))
  {
    MigratedRows(t);
    var t' := Opened(t);
    forall ring
      ensures GoodRingRow(t', ring)
    {
      BootstrappedRingRow(t, ring);
    }
    forall resource
      ensures GoodResourceRow(t', resource)
    {
      MigratedResource(t, resource);
    }
    forall b
      ensures GoodPermKey(t', b) && GoodMemberRows(t', b)
    {
      BackfilledKey(t, b);
      assert GoodV0Nickname(t, b);
    }
  }

  // ---------------------------------------------------------------- access after migration

  /** Version 0 has one kind of access: being in a ring, or the ring being the open one. */
  predicate V0Grants(t: Tables, ring: Name, peer: Peer) {
    IsOpen(ring) || (ring in t.rings && peer in DecodeChunks(t.rings[ring]))
  }

  /** Who version 0 lets at a resource. */
  ghost predicate V0Access(t: Tables, peer: Peer, resource: Bytes) {
    && resource in t.resourceRings
    && var names := DecodeRingNames(t.resourceRings[resource]);
       exists i :: 0 <= i < |names| && V0Grants(t, names[i], peer)
  }

  lemma MigratedExpiriesAndLabels(t: Tables, t': Tables, k: Key)
    requires RowsFromV0(t, t')
    ensures Get(Decoded(t').labels, k) == Get(t.nicknames, RowKey(k))
    ensures k !in Decoded(t').expiries
  {
    assert DecodedRows(t'.expiries) == map[];
    DecodedRow(t.nicknames, k);
  }

  lemma MigratedMembers(t: Tables, t': Tables, ring: Name, ids: seq<Peer>)
    requires RowsFromV0(t, t')
    ensures forall i :: 0 <= i < |ids| ==>
              MembersOf(Decoded(t'), ring, ids)[i] == Member(ids[i], Get(t.nicknames, MemberKey(ring, ids[i])), None)
  {
    forall i | 0 <= i < |ids|
      ensures MembersOf(Decoded(t'), ring, ids)[i] == Member(ids[i], Get(t.nicknames, MemberKey(ring, ids[i])), None)
    {
      MigratedExpiriesAndLabels(t, t', (ring, ids[i]));
    }
  }

  lemma WithoutExpiryAllAreListed(st: Store, ring: Name, now: Time)
    requires ring in st.rings && forall k :: k !in st.expiries
    ensures ListRingPeers(View(st), ring, now) == Ok(MembersOf(st, ring, st.rings[ring]))
  {
    UnexpiredLength(MembersOf(st, ring, st.rings[ring]), now);
  }

  lemma ListedMembers(t: Tables, t': Tables, ring: Name, now: Time)
    requires RowsFromV0(t, t') && ring in t.rings
    ensures var ids := DecodeChunks(t.rings[ring]);
      ListRingPeers(View(Decoded(t')), ring, now) == Ok(MembersOf(Decoded(t'), ring, ids))
  {
    forall k
      ensures k !in Decoded(t').expiries
    {
      MigratedExpiriesAndLabels(t, t', k);
    }
    MigratedIds(t, t', ring);
    WithoutExpiryAllAreListed(Decoded(t'), ring, now);
  }

  /** Every ring lists the members it had, in order, each under its nickname as label and without expiry. */
  lemma MigratedRing(t: Tables, ring: Name, now: Time)
    requires WellFormedV0(t) && ring in t.rings
    ensures var ids, listed := DecodeChunks(t.rings[ring]), ListRingPeers(View(Decoded(Opened(t))), ring, now);
      && listed.Ok? && |listed.value| == |ids|
      && forall i :: 0 <= i < |ids| ==>
           listed.value[i] == Member(ids[i], Get(t.nicknames, MemberKey(ring, ids[i])), None)
  {
    MigratedRows(t);
    MigratedMembers(t, Opened(t), ring, DecodeChunks(t.rings[ring]));
    ListedMembers(t, Opened(t), ring, now);
  }

  lemma MigratedEntry(t: Tables, resource: Bytes, i: nat)
    requires WellFormedV0(t) && resource in t.resourceRings
    requires i < |DecodeRingNames(t.resourceRings[resource])|
    ensures var entries := EntriesOf(Decoded(Opened(t)).resources, resource);
      i < |entries| && entries[i] == Entry(DecodeRingNames(t.resourceRings[resource])[i], {Read})
  {
    MigratedRows(t);
    var ring := DecodeRingNames(t.resourceRings[resource])[i];
    BackfilledRow(t, resource, ring);
    BackfilledKey(t, PermKey(resource, ring));
    ReadByte();
  }

  lemma GrantsReadForGood(st: Store, ring: Name, peer: Peer, permission: Permission, now: Time)
    requires (ring, peer) !in st.expiries
    ensures Grants(View(st), Entry(ring, {Read}), peer, permission, now) <==>
            permission == Read && (IsOpen(ring) || (ring in st.rings && peer in st.rings[ring]))
  {
    if ring in st.rings {
      LiveMemberInStore(st, ring, peer, now);
    }
  }

  lemma MigratedIds(t: Tables, t': Tables, ring: Name)
    requires RowsFromV0(t, t')
    ensures ring in t.rings ==> ring in Decoded(t').rings && Decoded(t').rings[ring] == DecodeChunks(t.rings[ring])
    ensures !IsOpen(ring) && ring in Decoded(t').rings ==> ring in t.rings
  {
  }

  lemma MigratedGrant(t: Tables, t': Tables, ring: Name, peer: Peer, permission: Permission, now: Time)
    requires RowsFromV0(t, t')
    ensures Grants(View(Decoded(t')), Entry(ring, {Read}), peer, permission, now) <==>
            permission == Read && V0Grants(t, ring, peer)
  {
    MigratedExpiriesAndLabels(t, t', (ring, peer));
    GrantsReadForGood(Decoded(t'), ring, peer, permission, now);
    if !IsOpen(ring) { MigratedIds(t, t', ring); }
  }

  lemma MigratedAssociation(t: Tables, peer: Peer, resource: Bytes, i: nat, permission: Permission, now: Time)
    requires WellFormedV0(t) && resource in t.resourceRings
    requires i < |DecodeRingNames(t.resourceRings[resource])|
    ensures var entries := EntriesOf(View(Decoded(Opened(t))).resources, resource);
      var ring := DecodeRingNames(t.resourceRings[resource])[i];
      && i < |entries| && entries[i] == Entry(ring, {Read})
      && (Grants(View(Decoded(Opened(t))), entries[i], peer, permission, now) <==>
            permission == Read && V0Grants(t, ring, peer))
  {
    MigratedRows(t);
    MigratedEntry(t, resource, i);
    MigratedGrant(t, Opened(t), DecodeRingNames(t.resourceRings[resource])[i], peer, permission, now);
  }

  /**
   Migration preserves meaning: `Read` is granted exactly to those version 0 gave access, and `Write`
   and `Delete` to nobody.
   */
  lemma MigrationPreservesAccess(t: Tables, peer: Peer, resource: Bytes, permission: Permission, now: Time)
    requires WellFormedV0(t)
    ensures HasPermission(View(Decoded(Opened(t))), peer, resource, permission, now) <==>
            permission == Read && V0Access(t, peer, resource)
  {
    MigratedResourceRows(t, resource);
    var s := View(Decoded(Opened(t)));
    if resource in t.resourceRings {
      forall i | 0 <= i < |DecodeRingNames(t.resourceRings[resource])|
        ensures Grants(s, EntriesOf(s.resources, resource)[i], peer, permission, now) <==>
                permission == Read && V0Grants(t, DecodeRingNames(t.resourceRings[resource])[i], peer)
      {
        MigratedAssociation(t, peer, resource, i, permission, now);
      }
    }
    AccessRingByRing(s, t, peer, resource, permission, now);
  }

  lemma AccessRingByRing(s: Registry, t: Tables, peer: Peer, resource: Bytes, permission: Permission, now: Time)
    requires var entries := EntriesOf(s.resources, resource);
      if resource !in t.resourceRings then entries == []
      else
        var names := DecodeRingNames(t.resourceRings[resource]);
        && |entries| == |names|
        && forall i :: 0 <= i < |names| ==>
             (Grants(s, entries[i], peer, permission, now) <==> permission == Read && V0Grants(t, names[i], peer))
    ensures HasPermission(s, peer, resource, permission, now) <==> permission == Read && V0Access(t, peer, resource)
  {
    if permission == Read && V0Access(t, peer, resource) {
      var names := DecodeRingNames(t.resourceRings[resource]);
      var i :| 0 <= i < |names| && V0Grants(t, names[i], peer);
      GrantedBy(s, resource, i, peer, permission, now);
    }
  }

  lemma MigratedResourceRows(t: Tables, resource: Bytes)
    requires WellFormedV0(t)
    ensures var entries := EntriesOf(View(Decoded(Opened(t))).resources, resource);
      |entries| == if resource in t.resourceRings then |DecodeRingNames(t.resourceRings[resource])| else 0
  {
    MigratedRows(t);
  }

  // ---------------------------------------------------------------- from version 1 or later

  /** `t'` has the rows that opening leaves of `t`, a database past version 0: only the labels can change. */
  ghost predicate RowsFromLater(t: Tables, t': Tables) {
    && t'.rings == Bootstrapped(t).rings
    && t'.resourceRings == t.resourceRings && t'.perms == t.perms && t'.expiries == t.expiries
    && t'.labels == if ReadVersion(t) == 1 then t.labels + NicknameRows(t) else t.labels
  }

  lemma LaterRows(t: Tables)
    requires ReadVersion(t) >= 1
    ensures RowsFromLater(t, Opened(t))
  {
    var b := Bootstrapped(t);
    OpenedFrom(t);
    assert NicknameRows(b) == NicknameRows(t);
    V1ToV2Rows(b);
    V2ToV3Rows(V1ToV2(b));
    V2ToV3Rows(b);
  }

  lemma SameMembersSameDecision(
    st: Store, st': Store, peer: Peer, resource: Bytes, permission: Permission, now: Time)
    requires st'.resources == st.resources && st'.expiries == st.expiries
    requires forall ring :: !IsOpen(ring) ==> Get(st'.rings, ring) == Get(st.rings, ring)
    ensures HasPermission(View(st'), peer, resource, permission, now)
            == HasPermission(View(st), peer, resource, permission, now)
  {
    forall a | a in EntriesOf(st.resources, resource)
      ensures Grants(View(st'), a, peer, permission, now) == Grants(View(st), a, peer, permission, now)
    {
      if !IsOpen(a.ring) && a.ring in st.rings {
        assert Get(st'.rings, a.ring) == Get(st.rings, a.ring);
        LiveMemberInStore(st, a.ring, peer, now);
        LiveMemberInStore(st', a.ring, peer, now);
      }
    }
  }

  lemma SameRowsSameMembers(t: Tables, t': Tables)
    requires RowsFromLater(t, t')
    ensures Decoded(t').resources == Decoded(t).resources && Decoded(t').expiries == Decoded(t).expiries
    ensures forall ring :: !IsOpen(ring) ==> Get(Decoded(t').rings, ring) == Get(Decoded(t).rings, ring)
  {
  }

  lemma SameRowsSaySame(
    t: Tables, t': Tables, resource: Bytes, ring: Name, peer: Peer, permission: Permission, now: Time)
    requires RowsFromLater(t, t')
    ensures R.RingSays(t', resource, ring, peer, permission, now)
            == R.RingSays(t, resource, ring, peer, permission, now)
  {
    assert R.BitSet(t', resource, ring, permission) == R.BitSet(t, resource, ring, permission);
    if !IsOpen(ring) {
      assert R.ListedPeer(t', ring, peer) == R.ListedPeer(t, ring, peer);
    }
  }

  lemma SameRowsSameScan(
    t: Tables, t': Tables, peer: Peer, resource: Bytes, permission: Permission, now: Time, result: Result<bool>)
    requires RowsFromLater(t, t')
    ensures StoredNames(t', resource) == StoredNames(t, resource)
    ensures forall ring :: R.RingSays(t', resource, ring, peer, permission, now)
                           == R.RingSays(t, resource, ring, peer, permission, now)
    ensures R.FirstDecides(t', resource, StoredNames(t', resource), peer, permission, now, result)
            <==> R.FirstDecides(t, resource, StoredNames(t, resource), peer, permission, now, result)
  {
    forall ring
      ensures R.RingSays(t', resource, ring, peer, permission, now)
              == R.RingSays(t, resource, ring, peer, permission, now)
    {
      SameRowsSaySame(t, t', resource, ring, peer, permission, now);
    }
  }

  /**
   Opening a database past version 0 changes no outcome of the permission scan, whatever its tables hold: the
   same rings are asked in the same order and say the same, undecodable expiry rows included.
   */
  lemma LaterMigrationKeepsScans(
    t: Tables, peer: Peer, resource: Bytes, permission: Permission, now: Time, result: Result<bool>)
    requires ReadVersion(t) >= 1
    ensures StoredNames(Opened(t), resource) == StoredNames(t, resource)
    ensures forall ring :: R.RingSays(Opened(t), resource, ring, peer, permission, now)
                           == R.RingSays(t, resource, ring, peer, permission, now)
    ensures R.FirstDecides(Opened(t), resource, StoredNames(Opened(t), resource), peer, permission, now, result)
            <==> R.FirstDecides(t, resource, StoredNames(t, resource), peer, permission, now, result)
  {
    LaterRows(t);
    SameRowsSameScan(t, Opened(t), peer, resource, permission, now, result);
  }

  /** So it changes no decision of the registry the tables decode to. */
  lemma LaterMigrationKeepsDecisions(t: Tables, peer: Peer, resource: Bytes, permission: Permission, now: Time)
    requires ReadVersion(t) >= 1
    ensures HasPermission(View(Decoded(Opened(t))), peer, resource, permission, now)
            == HasPermission(View(Decoded(t)), peer, resource, permission, now)
  {
    LaterRows(t);
    SameRowsSameMembers(t, Opened(t));
    SameMembersSameDecision(Decoded(t), Decoded(Opened(t)), peer, resource, permission, now);
  }

  /** Every member keeps its expiry, and its label unless there is a nickname for it to take. */
  lemma LaterMigrationKeepsMembers(t: Tables, ring: Name, peer: Peer)
    requires ReadVersion(t) >= 1
    ensures var nickname := if ReadVersion(t) == 1 then Get(NicknameRows(t), MemberKey(ring, peer)) else None;
      var m := MemberOf(Decoded(t), ring, peer);
      MemberOf(Decoded(Opened(t)), ring, peer) == m.(lbl := OrElse(nickname, m.lbl))
  {
    LaterRows(t);
    DecodedRow(t.labels, (ring, peer));
    DecodedRow(Opened(t).labels, (ring, peer));
  }

  /** Rows as the invariant wants them, whether or not the open ring has been made, and nicknames of members. */
  ghost predicate WellFormedLater(t: Tables) {
    && ReadVersion(t) >= 1
    && (forall ring :: GoodRingRow(t, ring))
    && (forall b :: GoodMemberRows(t, b))
    && (forall resource :: GoodResourceRow(t, resource))
    && (forall b :: GoodPermKey(t, b))
    && (forall b :: GoodV0Nickname(t, b))
  }

  lemma LaterRing(t: Tables, ring: Name)
    requires WellFormedLater(t)
    ensures GoodRingRow(Opened(t), ring)
    ensures ring in t.rings ==> ring in Opened(t).rings && Opened(t).rings[ring] == t.rings[ring]
  {
    LaterRows(t);
    assert GoodRingRow(t, ring);
    OpenRingRow(ring);
  }

  /** The row that `open` makes for the open ring. */
  lemma OpenRingRow(ring: Name)
    ensures IsOpen(ring) ==> ValidName(ring)
    ensures DecodeChunks(EncodeChunks([])) == [] && |EncodeChunks([])| == 0
  {
    InitialIsWellFormed();
    assert GoodRing(INITIAL, ring);
  }

  lemma LaterMemberRows(t: Tables, b: Bytes)
    requires WellFormedLater(t)
    ensures GoodMemberRows(Opened(t), b)
  {
    LaterRows(t);
    assert GoodMemberRows(t, b) && GoodV0Nickname(t, b);
    if MemberRowKey(t, b) {
      LaterRing(t, SplitMemberKey(b).value.0);
    }
  }

  lemma LaterResourceRow(t: Tables, resource: Bytes)
    requires WellFormedLater(t)
    ensures GoodResourceRow(Opened(t), resource)
  {
    LaterRows(t);
    assert GoodResourceRow(t, resource);
    if resource in t.resourceRings {
      forall ring | ring in DecodeRingNames(t.resourceRings[resource])
        ensures ring in Opened(t).rings && GoodPermRow(Opened(t), resource, ring)
      {
        assert GoodPermRow(t, resource, ring);
        LaterRing(t, ring);
      }
    }
  }

  lemma LaterPermKey(t: Tables, b: Bytes)
    requires WellFormedLater(t)
    ensures GoodPermKey(Opened(t), b)
  {
    LaterRows(t);
    assert GoodPermKey(t, b);
    if b in t.perms {
      var resource, ring :| KeyOfRow(t, resource, ring, b);
      assert KeyOfRow(Opened(t), resource, ring, b);
    }
  }

  /** Opening a well-formed database of version 1 or later ends with tables that satisfy the current invariant. */
  lemma LaterMigrationEstablishesInvariant(t: Tables)
    requires WellFormedLater(t)
    ensures RawInvariant(Opened(t))
  {
    LaterRows(t);
    forall ring
      ensures GoodRingRow(Opened(t), ring)
    {
      LaterRing(t, ring);
    }
    forall b
      ensures GoodMemberRows(Opened(t), b) && GoodPermKey(Opened(t), b)
    {
      LaterMemberRows(t, b);
      LaterPermKey(t, b);
    }
    forall resource
      ensures GoodResourceRow(Opened(t), resource)
    {
      LaterResourceRow(t, resource);
    }
  }

  // ---------------------------------------------------------------- opening

  /** Opening a current database again changes nothing: what a registry stored is what it finds. */
  lemma ReopenChangesNothing(t: Tables)
    requires IsBootstrapped(t) && ReadVersion(t) >= CURRENT_VERSION
    ensures Opened(t) == t
  {
    BootstrapTwice(t);
  }

  /** A database file that has just been made: no table and no row. */
  ghost predicate NewFile(t: Tables) {
    && t.present == {} && t.rings == map[] && t.resourceRings == map[] && t.labels == map[]
    && t.expiries == map[] && t.perms == map[] && t.nicknames == map[] && t.meta == map[]
  }

  lemma FreshIsWellFormedV0(t: Tables)
    requires NewFile(t)
    ensures WellFormedV0(t)
  {
    assert forall b :: b !in t.perms && b !in t.nicknames;
    forall ring
      ensures GoodRingRow(t, ring)
    {
    }
    forall r
      ensures GoodV0Resource(t, r) && GoodV0Nickname(t, r)
    {
    }
  }

  lemma FreshRegistry(t: Tables, t': Tables)
    requires NewFile(t) && RowsFromV0(t, t')
    ensures View(Decoded(t')) == INITIAL
  {
    var s := View(Decoded(t'));
    assert DecodeChunks(EncodeChunks([])) == [];
    assert s.rings == INITIAL.rings;
    assert s.resources == map[];
  }

  /** A new file opens as the registry with the open ring and nothing else. */
  lemma FreshDatabase(t: Tables)
    requires NewFile(t)
    ensures WellFormedV0(t)
    ensures View(Decoded(Opened(t))) == INITIAL
  {
    FreshIsWellFormedV0(t);
    MigratedRows(t);
    FreshRegistry(t, Opened(t));
  }

  /** `RedbRegistry::open`: a valid handle if the tables it ends with satisfy the invariant. */
  method OpenRegistry(db: D.Database) returns (registry: R.RedbRegistry)
    modifies db
    ensures db.committed == Opened(old(db.committed))
    ensures fresh(registry) && registry.db == db && registry.Abs() == View(Decoded(db.committed))
    ensures registry.Valid() <==> RawInvariant(db.committed)
  {
    Open(db);
    registry := new R.RedbRegistry(db, Decoded(db.committed));
    if RawInvariant(db.committed) {
      RawInvariantRepresents(db.committed);
    }
    if registry.Valid() {
      RepImpliesRawInvariant(db.committed, registry.store);
    }
  }

  /** Closing a current database and opening it again gives the same registry: nothing of it is only in memory. */
  lemma RestartKeepsRegistry(t: Tables, st: Store)
    requires Rep(t, st) && Consistent(st)
    requires ReadVersion(t) >= CURRENT_VERSION && OPENED_TABLES <= t.present
    ensures Opened(t) == t && RawInvariant(t) && View(Decoded(t)) == View(st)
  {
    RepImpliesRawInvariant(t, st);
    ReopenChangesNothing(t);
    DecodedIsTheStore(t, st);
  }
}
