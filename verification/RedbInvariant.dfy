/**
 The invariant of the redb tables, read off their bytes, and that it says neither more nor less than
 that the tables hold a well-formed registry.
 */
module RedbInvariant {
  import opened Types
  import opened Ring
  import opened RegistrySpec
  import opened RegistryInvariants
  import opened Store
  import opened Encoding
  import opened RedbCodec
  import opened RedbTables

  /** Whole 32-byte chunks, no id twice, under a name `Ring::new` accepts. */
  ghost predicate GoodRingRow(t: Tables, ring: Name) {
    ring in t.rings ==>
      ValidName(ring) && |t.rings[ring]| % 32 == 0 && NoDuplicates(DecodeChunks(t.rings[ring]))
  }

  /** `b` is the key of a current member. */
  ghost predicate MemberRowKey(t: Tables, b: Bytes) {
    && IsRowKey(b)
    && var (ring, peer) := SplitMemberKey(b).value;
       ring in t.rings && peer in DecodeChunks(t.rings[ring])
  }

  ghost predicate GoodMemberRows(t: Tables, b: Bytes) {
    && (b in t.labels ==> MemberRowKey(t, b))
    && (b in t.expiries ==> MemberRowKey(t, b) && t.expiries[b].0 <= MAX_SECS && t.expiries[b].1 < NANOS_PER_SEC)
  }

  /** A permission row with some of the three bits and no other, and only `Read` for the open ring. */
  ghost predicate GoodPermRow(t: Tables, resource: Bytes, ring: Name) {
    var b := PermKey(resource, ring);
    && b in t.perms
    && t.perms[b] != 0
    && t.perms[b] & 0xF8 == 0
    && (IsOpen(ring) ==> t.perms[b] == PermissionBit(Read))
  }

  ghost predicate GoodResourceRow(t: Tables, resource: Bytes) {
    resource in t.resourceRings ==>
      var names := DecodeRingNames(t.resourceRings[resource]);
      && NoDuplicates(names)
      && forall ring :: ring in names ==> ring in t.rings && GoodPermRow(t, resource, ring)
  }

  /** `b` is the permission key of a ring that the row of `resource` lists. */
  ghost predicate KeyOfRow(t: Tables, resource: Bytes, ring: Name, b: Bytes) {
    && resource in t.resourceRings
    && ring in DecodeRingNames(t.resourceRings[resource])
    && PermKey(resource, ring) == b
  }

  /** Permission rows exist for listed pairs only. */
  ghost predicate GoodPermKey(t: Tables, b: Bytes) {
    b in t.perms ==> exists resource, ring :: KeyOfRow(t, resource, ring, b)
  }

  ghost predicate RawInvariant(t: Tables) {
    && OPEN_RING_NAME in t.rings
    && (forall ring :: GoodRingRow(t, ring))
    && (forall b :: GoodMemberRows(t, b))
    && (forall resource :: GoodResourceRow(t, resource))
    && (forall b :: GoodPermKey(t, b))
  }

  // ---------------------------------------------------------------- decoding

  function RowKeysOf<V>(rows: map<Bytes, V>): set<Key> {
    set b | b in rows && IsRowKey(b) :: SplitMemberKey(b).value
  }

  function DecodedRows<V>(rows: map<Bytes, V>): map<Key, V> {
    map k | k in RowKeysOf(rows) && RowKey(k) in rows :: rows[RowKey(k)]
  }

  lemma DecodedRow<V>(rows: map<Bytes, V>, k: Key)
    ensures Get(DecodedRows(rows), k) == Get(rows, RowKey(k))
  {
    SplitInvertsMemberKey(k.0, k.1);
    if RowKey(k) in rows {
      assert IsRowKey(RowKey(k)) && k in RowKeysOf(rows);
    }
  }

  function DecodedExpiries(rows: map<Bytes, (u64, u32)>): map<Key, Time> {
    map k | k in DecodedRows(rows) && DecodeExpiry(DecodedRows(rows)[k]).Ok? :: DecodeExpiry(DecodedRows(rows)[k]).value
  }

  function StoredPermissions(perms: map<Bytes, bv8>, resource: Bytes, ring: Name): set<Permission> {
    if PermKey(resource, ring) in perms then PermsOfByte(perms[PermKey(resource, ring)]) else {}
  }

  function DecodedEntries(perms: map<Bytes, bv8>, resource: Bytes, names: seq<Name>): (entries: seq<Association>)
    ensures |entries| == |names|
    ensures forall i :: 0 <= i < |names| ==> entries[i] == Entry(names[i], StoredPermissions(perms, resource, names[i]))
  {
    seq(|names|, i requires 0 <= i < |names| => Entry(names[i], StoredPermissions(perms, resource, names[i])))
  }

  function Decoded(t: Tables): Store {
    Store(
      map ring | ring in t.rings :: DecodeChunks(t.rings[ring]),
      DecodedRows(t.labels),
      DecodedExpiries(t.expiries),
      map r | r in t.resourceRings :: DecodedEntries(t.perms, r, DecodeRingNames(t.resourceRings[r])))
  }

  lemma DecodedRowsHold<V>(rows: map<Bytes, V>)
    requires forall b :: b in rows ==> IsRowKey(b)
    ensures MemberRows(rows, DecodedRows(rows))
  {
    forall b | b in rows
      ensures SplitMemberKey(b).value in DecodedRows(rows)
    {
      assert IsRowKey(b);
      assert SplitMemberKey(b).value in RowKeysOf(rows);
    }
  }

  lemma NormalExpiry(row: (u64, u32))
    requires row.0 <= MAX_SECS && row.1 < NANOS_PER_SEC
    ensures DecodeExpiry(row).Ok? && DecodeExpiry(row).value >= 0 && EncodeExpiry(DecodeExpiry(row).value) == row
  {
  }

  lemma DecodedExpiriesHold(rows: map<Bytes, (u64, u32)>)
    requires forall b :: b in rows ==> IsRowKey(b) && rows[b].0 <= MAX_SECS && rows[b].1 < NANOS_PER_SEC
    ensures RepExpiries(rows, DecodedExpiries(rows))
  {
    DecodedRowsHold(rows);
    var decoded := DecodedRows(rows);
    forall k | k in decoded
      ensures DecodeExpiry(decoded[k]).Ok?
      ensures DecodeExpiry(decoded[k]).value >= 0 && EncodeExpiry(DecodeExpiry(decoded[k]).value) == decoded[k]
    {
      NormalExpiry(decoded[k]);
    }
    assert EncodedExpiries(DecodedExpiries(rows)) == decoded;
  }

  lemma DecodedRingsHold(t: Tables)
    requires forall ring :: GoodRingRow(t, ring)
    ensures RepRings(t.rings, Decoded(t))
  {
    forall ring | ring in t.rings
      ensures t.rings[ring] == EncodeChunks(DecodeChunks(t.rings[ring]))
    {
      assert GoodRingRow(t, ring);
      EncodeInvertsDecodeChunks(t.rings[ring]);
    }
  }

  lemma DecodedResourceRow(t: Tables, resource: Bytes)
    requires resource in t.resourceRings
    ensures NamesOf(Decoded(t).resources[resource]) == DecodeRingNames(t.resourceRings[resource])
    ensures t.resourceRings[resource] == JoinNames(NamesOf(Decoded(t).resources[resource]))
  {
    ReencodedRow(t.resourceRings[resource]);
    assert NamesOf(Decoded(t).resources[resource]) == DecodeRingNames(t.resourceRings[resource]);
  }

  lemma DecodedPermRow(t: Tables, resource: Bytes, a: Association)
    requires resource in t.resourceRings && GoodResourceRow(t, resource)
    requires a in DecodedEntries(t.perms, resource, DecodeRingNames(t.resourceRings[resource]))
    ensures PermRow(t.perms, resource, a)
  {
    assert a.ring in DecodeRingNames(t.resourceRings[resource]);
    assert GoodPermRow(t, resource, a.ring);
  }

  lemma DecodedPermKey(t: Tables, b: Bytes)
    requires b in t.perms && GoodPermKey(t, b)
    ensures ListedPermKey(Decoded(t).resources, b)
  {
    var resource, ring :| KeyOfRow(t, resource, ring, b);
    DecodedResourceRow(t, resource);
    assert KeyOfListed(Decoded(t).resources, resource, ring, b);
  }

  lemma DecodedResourcesHold(t: Tables)
    requires forall resource :: GoodResourceRow(t, resource)
    requires forall b :: GoodPermKey(t, b)
    ensures RepResources(t.resourceRings, Decoded(t).resources)
    ensures RepPerms(t.perms, Decoded(t).resources)
  {
    var resources := Decoded(t).resources;
    assert resources.Keys == t.resourceRings.Keys;
    forall r | r in resources
      ensures t.resourceRings[r] == JoinNames(NamesOf(resources[r]))
    {
      DecodedResourceRow(t, r);
    }
    forall r, a | r in resources && a in resources[r]
      ensures PermRow(t.perms, r, a)
    {
      assert GoodResourceRow(t, r);
      DecodedPermRow(t, r, a);
    }
    forall b | b in t.perms
      ensures ListedPermKey(resources, b)
    {
      assert GoodPermKey(t, b);
      DecodedPermKey(t, b);
    }
  }

  lemma DecodedHasNoOrphans(t: Tables)
    requires forall b :: GoodMemberRows(t, b)
    ensures NoOrphans(Decoded(t))
  {
    forall k
      ensures RowsHaveMember(Decoded(t), k)
    {
      SplitInvertsMemberKey(k.0, k.1);
      assert GoodMemberRows(t, RowKey(k));
    }
  }

  lemma PermsOfNonzeroByte(bits: bv8)
    requires bits != 0 && bits & 0xF8 == 0
    ensures PermsOfByte(bits) != {}
  {
    if PermsOfByte(bits) == {} {
      NoBitsNoPermissions();
      ZeroAnd(0xF8);
      ByteIsItsPermissions(bits, 0);
      assert false;
    }
  }

  lemma ReadByte()
    ensures PermsOfByte(PermissionBit(Read)) == {Read}
    ensures PermissionBit(Read) & 0xF8 == 0 && PermissionBit(Read) != 0
  {
    PermsToByteMeaning([Read]);
    assert PermsToByte([Read]) == PermsToByte([]) | PermissionBit(Read);
    assert Elements([Read]) == {Read};
  }

  lemma DecodedAssociation(t: Tables, resource: Bytes, a: Association)
    requires resource in t.resourceRings && GoodResourceRow(t, resource)
    requires a in DecodedEntries(t.perms, resource, DecodeRingNames(t.resourceRings[resource]))
    ensures a.ring in t.rings && a.permissions != {} && (IsOpen(a.ring) ==> a.permissions == {Read})
  {
    assert a.ring in DecodeRingNames(t.resourceRings[resource]) && GoodPermRow(t, resource, a.ring);
    PermsOfNonzeroByte(t.perms[PermKey(resource, a.ring)]);
    ReadByte();
  }

  lemma DecodedAssociations(t: Tables, resource: Bytes)
    requires resource in t.resourceRings && GoodResourceRow(t, resource)
    ensures WellFormedAssociations(View(Decoded(t)), Decoded(t).resources[resource])
  {
    forall a | a in DecodedEntries(t.perms, resource, DecodeRingNames(t.resourceRings[resource]))
      ensures a.ring in t.rings && a.permissions != {} && (IsOpen(a.ring) ==> a.permissions == {Read})
    {
      DecodedAssociation(t, resource, a);
    }
  }

  lemma DecodedIsWellFormed(t: Tables)
    requires RawInvariant(t)
    ensures WellFormed(View(Decoded(t)))
  {
    var s := View(Decoded(t));
    forall ring
      ensures GoodRing(s, ring)
    {
      assert GoodRingRow(t, ring);
    }
    forall resource
      ensures GoodResource(s, resource)
    {
      assert GoodResourceRow(t, resource);
      if resource in s.resources {
        DecodedAssociations(t, resource);
      }
    }
  }

  lemma RawInvariantRepresents(t: Tables)
    requires RawInvariant(t)
    ensures Consistent(Decoded(t)) && Rep(t, Decoded(t))
  {
    DecodedIsWellFormed(t);
    DecodedHasNoOrphans(t);
    DecodedRingsHold(t);
    DecodedResourcesHold(t);
    forall b
      ensures (b in t.labels ==> IsRowKey(b)) &&
              (b in t.expiries ==> IsRowKey(b) && t.expiries[b].0 <= MAX_SECS && t.expiries[b].1 < NANOS_PER_SEC)
    {
      assert GoodMemberRows(t, b);
    }
    DecodedRowsHold(t.labels);
    DecodedExpiriesHold(t.expiries);
  }

  // ---------------------------------------------------------------- the other direction

  lemma EncodedExpiryIsNormal(t: Time)
    ensures EncodeExpiry(t).0 <= MAX_SECS && EncodeExpiry(t).1 < NANOS_PER_SEC
  {
  }

  lemma RepMemberRows(t: Tables, st: Store, b: Bytes)
    requires Rep(t, st) && NoOrphans(st)
    ensures GoodMemberRows(t, b)
  {
    if b in t.labels || b in t.expiries {
      assert IsRowKey(b);
      var k := SplitMemberKey(b).value;
      assert RowsHaveMember(st, k);
      ReadRing(t, st, k.0);
      if b in t.expiries {
        ReadExpiryRow(t, st, k);
        EncodedExpiryIsNormal(st.expiries[k]);
      }
    }
  }

  lemma RepResourceRow(t: Tables, st: Store, resource: Bytes)
    requires Rep(t, st) && Consistent(st)
    ensures GoodResourceRow(t, resource)
  {
    if resource in t.resourceRings {
      var entries := st.resources[resource];
      ReadResource(t, st, resource);
      assert GoodResource(View(st), resource);
      forall ring | ring in NamesOf(entries)
        ensures ring in t.rings && GoodPermRow(t, resource, ring)
      {
        var i :| 0 <= i < |entries| && NamesOf(entries)[i] == ring;
        var a := entries[i];
        assert a in entries && PermRow(t.perms, resource, a);
        NoBitsNoPermissions();
        if IsOpen(ring) {
          ReadByte();
          ByteIsItsPermissions(t.perms[PermKey(resource, ring)], PermissionBit(Read));
        }
      }
    }
  }

  lemma RepPermKey(t: Tables, st: Store, b: Bytes)
    requires Rep(t, st) && Consistent(st)
    ensures GoodPermKey(t, b)
  {
    if b in t.perms {
      assert ListedPermKey(st.resources, b);
      var resource, ring :| KeyOfListed(st.resources, resource, ring, b);
      ReadResource(t, st, resource);
      assert KeyOfRow(t, resource, ring, b);
    }
  }

  lemma RepImpliesRawInvariant(t: Tables, st: Store)
    requires Rep(t, st) && Consistent(st)
    ensures RawInvariant(t)
  {
    assert OPEN_RING_NAME in View(st).rings;
    forall ring
      ensures GoodRingRow(t, ring)
    {
      if ring in st.rings {
        ConsistentRing(st, ring);
        ReadRing(t, st, ring);
        DecodeInvertsEncodeChunks(st.rings[ring], []);
      }
    }
    forall b
      ensures GoodMemberRows(t, b) && GoodPermKey(t, b)
    {
      RepMemberRows(t, st, b);
      RepPermKey(t, st, b);
    }
    forall resource
      ensures GoodResourceRow(t, resource)
    {
      RepResourceRow(t, st, resource);
    }
  }

  /** The tables satisfy the invariant exactly when they hold some well-formed registry. */
  lemma RawInvariantIff(t: Tables)
    ensures RawInvariant(t) <==> exists st :: Consistent(st) && Rep(t, st)
  {
    if RawInvariant(t) {
      RawInvariantRepresents(t);
    }
    forall st | Consistent(st) && Rep(t, st)
      ensures RawInvariant(t)
    {
      RepImpliesRawInvariant(t, st);
    }
  }

  // ---------------------------------------------------------------- the bytes determine the registry

  lemma DecodedRowsAre<V>(rows: map<Bytes, V>, m: map<Key, V>)
    requires MemberRows(rows, m)
    ensures DecodedRows(rows) == m
  {
    forall k | k in m
      ensures k in RowKeysOf(rows)
    {
      SplitInvertsMemberKey(k.0, k.1);
      assert RowKey(k) in rows;
    }
  }

  lemma DecodedExpiriesAre(rows: map<Bytes, (u64, u32)>, expiries: map<Key, Time>)
    requires RepExpiries(rows, expiries)
    ensures DecodedExpiries(rows) == expiries
  {
    DecodedRowsAre(rows, EncodedExpiries(expiries));
    forall k | k in expiries
      ensures DecodeExpiry(EncodeExpiry(expiries[k])) == Ok(expiries[k])
    {
      ExpiryRoundTrip(expiries[k]);
    }
  }

  lemma DecodedEntriesAre(t: Tables, st: Store, resource: Bytes)
    requires Rep(t, st) && Consistent(st) && resource in st.resources
    ensures DecodedEntries(t.perms, resource, DecodeRingNames(t.resourceRings[resource])) == st.resources[resource]
  {
    ReadResource(t, st, resource);
    forall i | 0 <= i < |st.resources[resource]|
      ensures StoredPermissions(t.perms, resource, st.resources[resource][i].ring)
              == st.resources[resource][i].permissions
    {
      ReadPermission(t, st, resource, i);
    }
  }

  lemma DecodedRingsAre(t: Tables, st: Store)
    requires RepRings(t.rings, st)
    ensures Decoded(t).rings == st.rings
  {
    forall ring | ring in st.rings
      ensures DecodeChunks(t.rings[ring]) == st.rings[ring]
    {
      ReadRing(t, st, ring);
    }
  }

  lemma DecodedResourceIs(t: Tables, st: Store, resource: Bytes)
    requires Rep(t, st) && Consistent(st)
    ensures Get(Decoded(t).resources, resource) == Get(st.resources, resource)
  {
    if resource in st.resources {
      DecodedEntriesAre(t, st, resource);
    }
  }

  lemma DecodedResourcesAre(t: Tables, st: Store)
    requires Rep(t, st) && Consistent(st)
    ensures Decoded(t).resources == st.resources
  {
    forall resource
      ensures Get(Decoded(t).resources, resource) == Get(st.resources, resource)
    {
      DecodedResourceIs(t, st, resource);
    }
    SameLookupsSameMap(Decoded(t).resources, st.resources);
  }

  /** Tables hold one store at most, and reading them back finds it. */
  lemma DecodedIsTheStore(t: Tables, st: Store)
    requires Rep(t, st) && Consistent(st)
    ensures Decoded(t) == st
  {
    DecodedRingsAre(t, st);
    DecodedRowsAre(t.labels, st.labels);
    DecodedExpiriesAre(t.expiries, st.expiries);
    DecodedResourcesAre(t, st);
    assert Decoded(t).labels == st.labels && Decoded(t).expiries == st.expiries;
  }
}
