/**
 The redb tables, holding bytes, and what it means for them to represent a store.

 A write transaction works on a copy of the tables and replaces them when it commits, so an
 operation that returns early leaves them as they were.
 */
module RedbTables {
  import opened Types
  import opened Ring
  import opened RegistrySpec
  import opened RegistryInvariants
  import opened Store
  import opened Encoding
  import opened RedbCodec

  datatype TableName =
    | RingsTable
    | ResourceRingsTable
    | LabelsTable
    | ExpiriesTable
    | PermsTable
    | NicknamesTable
    | MetaTable

  /** The rows of every table; `present` names the tables that exist. The last two serve migrations only. */
  datatype Tables = Tables(
    present: set<TableName>,
    rings: map<Name, Bytes>,
    resourceRings: map<Bytes, Bytes>,
    labels: map<Bytes, Label>,
    expiries: map<Bytes, (u64, u32)>,
    perms: map<Bytes, bv8>,
    nicknames: map<Bytes, Label>,
    meta: map<string, u32>)

  // ---------------------------------------------------------------- rows keyed by ring and peer

  function RowKey(k: Key): Bytes {
    MemberKey(k.0, k.1)
  }

  /** `b` is a member key, that of `SplitMemberKey(b)`. */
  predicate IsRowKey(b: Bytes) {
    SplitMemberKey(b).Ok? && RowKey(SplitMemberKey(b).value) == b
  }

  /** `rows` holds exactly the entries of `m`. */
  ghost predicate MemberRows<V>(rows: map<Bytes, V>, m: map<Key, V>) {
    && (forall k :: k in m ==> RowKey(k) in rows && rows[RowKey(k)] == m[k])
    && (forall b :: b in rows ==> IsRowKey(b) && SplitMemberKey(b).value in m)
  }

  lemma RowKeyInjective(k: Key, k': Key)
    requires RowKey(k) == RowKey(k')
    ensures k == k'
  {
    MemberKeyInjective(k.0, k.1, k'.0, k'.1);
  }

  lemma RowLookup<V>(rows: map<Bytes, V>, m: map<Key, V>, k: Key)
    requires MemberRows(rows, m)
    ensures Get(rows, RowKey(k)) == Get(m, k)
  {
    SplitInvertsMemberKey(k.0, k.1);
  }

  lemma RowInsert<V>(rows: map<Bytes, V>, m: map<Key, V>, k: Key, v: V)
    requires MemberRows(rows, m)
    ensures MemberRows(rows[RowKey(k) := v], m[k := v])
  {
    SplitInvertsMemberKey(k.0, k.1);
    forall k' | k' in m && RowKey(k') == RowKey(k)
      ensures k' == k
    {
      RowKeyInjective(k', k);
    }
  }

  lemma RowsRemove<V>(rows: map<Bytes, V>, m: map<Key, V>, ks: set<Key>)
    requires MemberRows(rows, m)
    ensures MemberRows(rows - (set k | k in ks :: RowKey(k)), m - ks)
  {
    forall k | k in m - ks
      ensures RowKey(k) !in (set j | j in ks :: RowKey(j))
    {
      forall j | j in ks && RowKey(j) == RowKey(k)
        ensures j == k
      {
        RowKeyInjective(j, k);
      }
    }
  }

  lemma RowRemove<V>(rows: map<Bytes, V>, m: map<Key, V>, k: Key)
    requires MemberRows(rows, m)
    ensures MemberRows(rows - {RowKey(k)}, m - {k})
  {
    RowsRemove(rows, m, {k});
    assert (set j | j in {k} :: RowKey(j)) == {RowKey(k)};
  }

  // ---------------------------------------------------------------- representation

  function NamesOf<P>(entries: seq<Entry<P>>): (names: seq<Name>)
    ensures |names| == |entries|
    ensures forall i :: 0 <= i < |entries| ==> names[i] == entries[i].ring
  {
    seq(|entries|, i requires 0 <= i < |entries| => entries[i].ring)
  }

  function EncodedExpiries(expiries: map<Key, Time>): map<Key, (u64, u32)> {
    map k | k in expiries :: EncodeExpiry(expiries[k])
  }

  ghost predicate RepRings(rings: map<Name, Bytes>, st: Store) {
    && rings.Keys == st.rings.Keys
    && forall ring :: ring in st.rings ==> rings[ring] == EncodeChunks(st.rings[ring])
  }

  ghost predicate RepExpiries(rows: map<Bytes, (u64, u32)>, expiries: map<Key, Time>) {
    && MemberRows(rows, EncodedExpiries(expiries))
    && forall k :: k in expiries ==> expiries[k] >= 0
  }

  ghost predicate RepResources(resourceRings: map<Bytes, Bytes>, resources: map<Bytes, seq<Association>>) {
    && resourceRings.Keys == resources.Keys
    && forall r :: r in resources ==> resourceRings[r] == JoinNames(NamesOf(resources[r]))
  }

  /** The permission row of `a` on `resource`. */
  ghost predicate PermRow(perms: map<Bytes, bv8>, resource: Bytes, a: Association) {
    var b := PermKey(resource, a.ring);
    b in perms && PermsOfByte(perms[b]) == a.permissions && perms[b] & 0xF8 == 0
  }

  /** `b` is the permission key of the association of `resource` with `ring`. */
  ghost predicate KeyOfListed(resources: map<Bytes, seq<Association>>, resource: Bytes, ring: Name, b: Bytes) {
    && resource in resources
    && ring in NamesOf(resources[resource])
    && PermKey(resource, ring) == b
  }

  ghost predicate ListedPermKey(resources: map<Bytes, seq<Association>>, b: Bytes) {
    exists resource, ring :: KeyOfListed(resources, resource, ring, b)
  }

  ghost predicate RepPerms(perms: map<Bytes, bv8>, resources: map<Bytes, seq<Association>>) {
    && (forall r, a :: r in resources && a in resources[r] ==> PermRow(perms, r, a))
    && (forall b :: b in perms ==> ListedPermKey(resources, b))
  }

  /** The tables hold exactly the store. */
  ghost predicate Rep(t: Tables, st: Store) {
    && RepRings(t.rings, st)
    && MemberRows(t.labels, st.labels)
    && RepExpiries(t.expiries, st.expiries)
    && RepResources(t.resourceRings, st.resources)
    && RepPerms(t.perms, st.resources)
  }

  /** The tables hold the registry `s`. */
  ghost predicate Holds(t: Tables, s: Registry) {
    exists st :: Consistent(st) && Rep(t, st) && View(st) == s
  }

  /** The ring names in the row of a resource. */
  function StoredNames(t: Tables, resource: Bytes): seq<Name> {
    if resource in t.resourceRings then DecodeRingNames(t.resourceRings[resource]) else []
  }

  ghost predicate ReadableRow(t: Tables, resource: Bytes) {
    forall n :: n in StoredNames(t, resource) ==> ValidName(n)
  }

  /**
   Every stored ring name is one that `Ring::new` accepts: listing rings relies on it, whatever else the tables
   hold.
   */
  ghost predicate Readable(t: Tables) {
    && OPEN_RING_NAME in t.rings
    && (forall ring :: ring in t.rings ==> ValidName(ring))
    && (forall resource :: ReadableRow(t, resource))
  }

  /** What no operation touches: the tables there are, the legacy labels, and the schema version. */
  predicate SameSchema(t: Tables, t': Tables) {
    t'.present == t.present && t'.nicknames == t.nicknames && t'.meta == t.meta
  }

  // ---------------------------------------------------------------- reading rows

  lemma ReadRing(t: Tables, st: Store, ring: Name)
    requires RepRings(t.rings, st) && ring in st.rings
    ensures DecodeChunks(t.rings[ring]) == st.rings[ring]
  {
    ChunksRoundTrip(st.rings[ring]);
  }

  lemma ReadExpiryRow(t: Tables, st: Store, k: Key)
    requires RepExpiries(t.expiries, st.expiries)
    ensures RowKey(k) in t.expiries <==> k in st.expiries
    ensures k in st.expiries ==> t.expiries[RowKey(k)] == EncodeExpiry(st.expiries[k]) && st.expiries[k] >= 0
  {
    RowLookup(t.expiries, EncodedExpiries(st.expiries), k);
  }

  lemma ReadExpiry(t: Tables, st: Store, k: Key)
    requires RepExpiries(t.expiries, st.expiries)
    ensures RowKey(k) in t.expiries <==> k in st.expiries
    ensures k in st.expiries ==> DecodeExpiry(t.expiries[RowKey(k)]) == Ok(st.expiries[k])
  {
    ReadExpiryRow(t, st, k);
    if k in st.expiries {
      ExpiryRoundTrip(st.expiries[k]);
    }
  }

  lemma ReadResource(t: Tables, st: Store, resource: Bytes)
    requires Consistent(st) && RepResources(t.resourceRings, st.resources) && resource in st.resources
    ensures DecodeRingNames(t.resourceRings[resource]) == NamesOf(st.resources[resource])
    ensures forall n :: n in NamesOf(st.resources[resource]) ==> n in st.rings && ValidName(n)
    ensures DistinctRings(st.resources[resource])
  {
    var entries := st.resources[resource];
    assert GoodResource(View(st), resource);
    forall n | n in NamesOf(entries)
      ensures n in st.rings && ValidName(n) && NulFree(n) && n != []
    {
      var i :| 0 <= i < |entries| && NamesOf(entries)[i] == n;
      assert entries[i] in entries;
      assert GoodRing(View(st), n);
      ValidNamesAreNulFree(n);
    }
    RingNamesRoundTripIff(NamesOf(entries));
  }

  lemma ReadPermission(t: Tables, st: Store, resource: Bytes, i: nat)
    requires RepPerms(t.perms, st.resources)
    requires resource in st.resources && i < |st.resources[resource]|
    ensures PermRow(t.perms, resource, st.resources[resource][i])
  {
  }

  lemma StoredNamesAre(t: Tables, st: Store, resource: Bytes)
    requires Rep(t, st) && Consistent(st)
    ensures StoredNames(t, resource) == NamesOf(EntriesOf(View(st).resources, resource))
  {
    if resource in st.resources {
      ReadResource(t, st, resource);
    }
  }

  lemma HeldTablesAreReadable(t: Tables, st: Store)
    requires Rep(t, st) && Consistent(st)
    ensures Readable(t)
  {
    assert OPEN_RING_NAME in View(st).rings;
    forall ring | ring in t.rings
      ensures ValidName(ring)
    {
      assert GoodRing(View(st), ring);
    }
    forall resource
      ensures ReadableRow(t, resource)
    {
      if resource in st.resources {
        ReadResource(t, st, resource);
      }
    }
  }

  // ---------------------------------------------------------------- writing rows

  lemma WriteRing(rings: map<Name, Bytes>, st: Store, ring: Name, ids: seq<Peer>)
    requires RepRings(rings, st)
    ensures RepRings(rings[ring := EncodeChunks(ids)], st.(rings := st.rings[ring := ids]))
  {
  }

  lemma WriteExpiry(rows: map<Bytes, (u64, u32)>, expiries: map<Key, Time>, k: Key, t: Time)
    requires RepExpiries(rows, expiries)
    ensures RepExpiries(rows[RowKey(k) := EncodeExpiry(t)], expiries[k := Clamp(t)])
  {
    RowInsert(rows, EncodedExpiries(expiries), k, EncodeExpiry(t));
    assert EncodeExpiry(t) == EncodeExpiry(Clamp(t));
    assert EncodedExpiries(expiries[k := Clamp(t)]) == EncodedExpiries(expiries)[k := EncodeExpiry(t)];
  }

  lemma DropExpiries(rows: map<Bytes, (u64, u32)>, expiries: map<Key, Time>, ks: set<Key>)
    requires RepExpiries(rows, expiries)
    ensures RepExpiries(rows - (set k | k in ks :: RowKey(k)), expiries - ks)
  {
    RowsRemove(rows, EncodedExpiries(expiries), ks);
    assert EncodedExpiries(expiries - ks) == EncodedExpiries(expiries) - ks;
  }

  lemma DropExpiry(rows: map<Bytes, (u64, u32)>, expiries: map<Key, Time>, k: Key)
    requires RepExpiries(rows, expiries)
    ensures RepExpiries(rows - {RowKey(k)}, expiries - {k})
  {
    RowRemove(rows, EncodedExpiries(expiries), k);
    assert EncodedExpiries(expiries - {k}) == EncodedExpiries(expiries) - {k};
  }

  /** Which rings a resource is associated with after `Associate`, whatever they grant. */
  function WithName(names: seq<Name>, ring: Name): seq<Name> {
    if ring in names then names else names + [ring]
  }

  lemma NamesOfAssociate<P>(entries: seq<Entry<P>>, ring: Name, permissions: P)
    ensures NamesOf(Associate(entries, ring, permissions)) == WithName(NamesOf(entries), ring)
  {
    var i := FindRing(entries, ring);
    if i < |entries| {
      assert NamesOf(entries)[i] == ring;
    } else {
      assert forall j :: 0 <= j < |entries| ==> NamesOf(entries)[j] != ring;
    }
  }

  /** Another resource's association has its permissions under the key of the association of `resource` with `ring`. */
  ghost predicate SharesKey(
    resources: map<Bytes, seq<Association>>, r: Bytes, a: Association, resource: Bytes, ring: Name)
  {
    r in resources && a in resources[r] && r != resource && PermKey(r, a.ring) == PermKey(resource, ring)
  }

  /** An association that shares the key would come to grant `permissions`: it must already. */
  ghost predicate MayAssociate(
    resources: map<Bytes, seq<Association>>, resource: Bytes, ring: Name, permissions: set<Permission>)
  {
    forall r, a :: SharesKey(resources, r, a, resource, ring) ==> a.permissions == permissions
  }

  /** No other resource's association would lose its permissions with those of `resource`. */
  ghost predicate MayDissociate(resources: map<Bytes, seq<Association>>, resource: Bytes) {
    forall r, a, ring :: ring in NamesOf(EntriesOf(resources, resource)) ==> !SharesKey(resources, r, a, resource, ring)
  }

  lemma ShortIdsShareNoKey(resources: map<Bytes, seq<Association>>, resource: Bytes)
    requires |resource| <= MAX_ID && forall r :: r in resources ==> |r| <= MAX_ID
    ensures forall ring, permissions :: MayAssociate(resources, resource, ring, permissions)
    ensures MayDissociate(resources, resource)
  {
    forall r, a, ring | r in resources && a in resources[r] && r != resource
      ensures PermKey(r, a.ring) != PermKey(resource, ring)
    {
      if PermKey(r, a.ring) == PermKey(resource, ring) {
        PermKeyInjective(r, a.ring, resource, ring);
        assert false;
      }
    }
  }

  lemma WriteAssociationPerms(
    perms: map<Bytes, bv8>, resources: map<Bytes, seq<Association>>, resource: Bytes, ring: Name, bits: bv8,
    entry: Association)
    requires RepPerms(perms, resources)
    requires MayAssociate(resources, resource, ring, entry.permissions)
    requires DistinctRings(EntriesOf(resources, resource))
    requires entry.ring == ring && PermsOfByte(bits) == entry.permissions && bits & 0xF8 == 0
    ensures RepPerms(perms[PermKey(resource, ring) := bits],
                     resources[resource := Associate(EntriesOf(resources, resource), ring, entry.permissions)])
  {
    var key := PermKey(resource, ring);
    var entries := EntriesOf(resources, resource);
    var updated := Associate(entries, ring, entry.permissions);
    var perms', resources' := perms[key := bits], resources[resource := updated];
    AssociateElements(entries, ring, entry.permissions);
    NamesOfAssociate(entries, ring, entry.permissions);
    forall r, a | r in resources' && a in resources'[r]
      ensures PermRow(perms', r, a)
    {
      if PermKey(r, a.ring) == key {
        if r != resource {
          assert SharesKey(resources, r, a, resource, ring);
        } else {
          PermKeysEqual(r, a.ring, resource, ring);
          assert (resource + a.ring)[|resource|..] == a.ring && (resource + ring)[|resource|..] == ring;
        }
      } else {
        assert r == resource ==> a in entries;
        assert PermRow(perms, r, a);
      }
    }
    forall b | b in perms'
      ensures ListedPermKey(resources', b)
    {
      if b == key {
        assert ring in WithName(NamesOf(entries), ring);
        assert KeyOfListed(resources', resource, ring, b);
      } else {
        var r, n :| KeyOfListed(resources, r, n, b);
        assert KeyOfListed(resources', r, n, b);
      }
    }
  }

  lemma DropAssociations(perms: map<Bytes, bv8>, resources: map<Bytes, seq<Association>>, resource: Bytes)
    requires RepPerms(perms, resources)
    requires resource in resources && MayDissociate(resources, resource)
    ensures RepPerms(perms - (set n | n in NamesOf(resources[resource]) :: PermKey(resource, n)),
            resources - {resource})
  {
    var gone := set n | n in NamesOf(resources[resource]) :: PermKey(resource, n);
    forall r, a | r in resources - {resource} && a in resources[r]
      ensures PermRow(perms - gone, r, a)
    {
      assert PermRow(perms, r, a);
      forall n | n in NamesOf(resources[resource])
        ensures PermKey(resource, n) != PermKey(r, a.ring)
      {
        assert !SharesKey(resources, r, a, resource, n);
      }
    }
    forall b | b in perms - gone
      ensures ListedPermKey(resources - {resource}, b)
    {
      var r, n :| KeyOfListed(resources, r, n, b);
      assert KeyOfListed(resources - {resource}, r, n, b);
    }
  }

  // ---------------------------------------------------------------- the two updates of associations

  /** The rows after `add_ring_to_resource`: the ring is listed, and its permission row is written. */
  function AddRingRows(t: Tables, resource: Bytes, ring: Name, permissions: seq<Permission>): Tables {
    t.(resourceRings := t.resourceRings[resource := JoinNames(WithName(StoredNames(t, resource), ring))],
       perms := t.perms[PermKey(resource, ring) := PermsToByte(permissions)])
  }

  /** The rows after `remove_ring_from_resource`: the row is gone, and the permission rows of the rings it listed. */
  function RemoveRingRows(t: Tables, resource: Bytes): Tables {
    t.(resourceRings := t.resourceRings - {resource},
       perms := t.perms - set n | n in StoredNames(t, resource) :: PermKey(resource, n))
  }

  lemma AddRingRep(t: Tables, st: Store, resource: Bytes, ring: Name, permissions: seq<Permission>)
    requires Rep(t, st) && Consistent(st)
    requires MayAssociate(st.resources, resource, ring, Elements(permissions))
    ensures Rep(AddRingRows(t, resource, ring, permissions), AddRingIn(st, resource, ring, Elements(permissions)))
  {
    var entries := EntriesOf(st.resources, resource);
    StoredNamesAre(t, st, resource);
    assert DistinctRings(entries) by {
      if resource in st.resources {
        ReadResource(t, st, resource);
      }
    }
    NamesOfAssociate(entries, ring, Elements(permissions));
    PermsToByteMeaning(permissions);
    WriteAssociationPerms(t.perms, st.resources, resource, ring, PermsToByte(permissions),
        Entry(ring, Elements(permissions)));
  }

  lemma AddRingRowsRefine(t: Tables, st: Store, resource: Bytes, ring: Name, permissions: seq<Permission>)
    requires Rep(t, st) && Consistent(st) && AddRing(View(st), resource, ring, Elements(permissions)).1.Ok?
    requires MayAssociate(st.resources, resource, ring, Elements(permissions))
    ensures var st' := AddRingIn(st, resource, ring, Elements(permissions));
      && Consistent(st') && Rep(AddRingRows(t, resource, ring, permissions), st')
      && View(st') == AddRing(View(st), resource, ring, Elements(permissions)).0
  {
    AddRingRep(t, st, resource, ring, permissions);
    AddRingRefines(st, resource, ring, Elements(permissions));
  }

  /** Tables that hold a registry have the permission row of each of its associations. */
  lemma HeldPermission(t: Tables, s: Registry, r: Bytes, a: Association)
    requires Holds(t, s) && r in s.resources && a in s.resources[r]
    ensures PermRow(t.perms, r, a)
  {
    var st :| Consistent(st) && Rep(t, st) && View(st) == s;
  }

  lemma SharedKeyIsOverwritten(
    t: Tables, st: Store, resource: Bytes, ring: Name, permissions: seq<Permission>, r: Bytes, a: Association)
    requires SharesKey(st.resources, r, a, resource, ring)
    requires AddRing(View(st), resource, ring, Elements(permissions)).1.Ok?
    requires Holds(AddRingRows(t, resource, ring, permissions),
             AddRing(View(st), resource, ring, Elements(permissions)).0)
    ensures a.permissions == Elements(permissions)
  {
    HeldPermission(
      AddRingRows(t, resource, ring, permissions), AddRing(View(st), resource, ring, Elements(permissions)).0, r, a);
    PermsToByteMeaning(permissions);
  }

  /**
   Associating a ring is exact on the tables iff no other resource's association with different
   permissions shares the key.
   */
  lemma AddRingHoldsIff(t: Tables, st: Store, resource: Bytes, ring: Name, permissions: seq<Permission>)
    requires Rep(t, st) && Consistent(st) && AddRing(View(st), resource, ring, Elements(permissions)).1.Ok?
    ensures Holds(AddRingRows(t, resource, ring, permissions),
                  AddRing(View(st), resource, ring, Elements(permissions)).0)
            <==> MayAssociate(st.resources, resource, ring, Elements(permissions))
  {
    if MayAssociate(st.resources, resource, ring, Elements(permissions)) {
      AddRingRowsRefine(t, st, resource, ring, permissions);
    } else {
      var r, a :| SharesKey(st.resources, r, a, resource, ring) && a.permissions != Elements(permissions);
      if Holds(AddRingRows(t, resource, ring, permissions),
          AddRing(View(st), resource, ring, Elements(permissions)).0) {
        SharedKeyIsOverwritten(t, st, resource, ring, permissions, r, a);
        assert false;
      }
    }
  }

  lemma NothingToRemove(t: Tables, resource: Bytes)
    requires resource !in t.resourceRings
    ensures RemoveRingRows(t, resource) == t
  {
    assert StoredNames(t, resource) == [];
    NothingRemoved(t.perms, set n | n in StoredNames(t, resource) :: PermKey(resource, n));
    NothingRemoved(t.resourceRings, {resource});
  }

  lemma RemoveRingsRep(t: Tables, st: Store, resource: Bytes)
    requires Rep(t, st) && Consistent(st) && MayDissociate(st.resources, resource)
    ensures Rep(RemoveRingRows(t, resource), st.(resources := st.resources - {resource}))
  {
    if resource in st.resources {
      StoredNamesAre(t, st, resource);
      DropAssociations(t.perms, st.resources, resource);
    } else {
      NothingToRemove(t, resource);
      NothingRemoved(st.resources, {resource});
    }
  }

  lemma RemoveRingRowsRefine(t: Tables, st: Store, resource: Bytes)
    requires Rep(t, st) && Consistent(st) && MayDissociate(st.resources, resource)
    ensures var st' := st.(resources := st.resources - {resource});
      Consistent(st') && Rep(RemoveRingRows(t, resource), st') && View(st') == RemoveRings(View(st), resource)
  {
    RemoveRingsRep(t, st, resource);
    RemoveRingsRefines(st, resource);
  }

  lemma SharedKeyIsLost(t: Tables, st: Store, resource: Bytes, r: Bytes, a: Association, ring: Name)
    requires ring in StoredNames(t, resource) && SharesKey(st.resources, r, a, resource, ring)
    ensures !Holds(RemoveRingRows(t, resource), RemoveRings(View(st), resource))
  {
    var t', s' := RemoveRingRows(t, resource), RemoveRings(View(st), resource);
    assert PermKey(r, a.ring) !in t'.perms;
    if Holds(t', s') {
      HeldPermission(t', s', r, a);
      assert false;
    }
  }

  /**
   Removing a resource's associations is exact on the tables iff none of them shares its key with another
   resource's.
   */
  lemma RemoveRingsHoldsIff(t: Tables, st: Store, resource: Bytes)
    requires Rep(t, st) && Consistent(st)
    ensures Holds(RemoveRingRows(t, resource), RemoveRings(View(st), resource))
            <==> MayDissociate(st.resources, resource)
  {
    if MayDissociate(st.resources, resource) {
      RemoveRingRowsRefine(t, st, resource);
    } else {
      var r, a, ring :| ring in NamesOf(EntriesOf(st.resources, resource))
          && SharesKey(st.resources, r, a, resource, ring);
      StoredNamesAre(t, st, resource);
      SharedKeyIsLost(t, st, resource, r, a, ring);
    }
  }

  lemma AddRingKeepsReadable(t: Tables, resource: Bytes, ring: Name, permissions: seq<Permission>)
    requires Readable(t) && ring in t.rings
    ensures Readable(AddRingRows(t, resource, ring, permissions))
  {
    var t', names := AddRingRows(t, resource, ring, permissions), WithName(StoredNames(t, resource), ring);
    assert ReadableRow(t, resource);
    forall n | n in names
      ensures ValidName(n) && NulFree(n) && n != []
    {
      ValidNamesAreNulFree(n);
    }
    RingNamesRoundTripIff(names);
    forall r
      ensures ReadableRow(t', r)
    {
      assert ReadableRow(t, r);
      assert r == resource ==> StoredNames(t', r) == names;
    }
  }

  lemma RemoveRingKeepsReadable(t: Tables, resource: Bytes)
    requires Readable(t)
    ensures Readable(RemoveRingRows(t, resource))
  {
    forall r
      ensures ReadableRow(RemoveRingRows(t, resource), r)
    {
      assert ReadableRow(t, r);
    }
  }

  predicate SameNames(t: Tables, t': Tables) {
    t'.rings.Keys == t.rings.Keys && t'.resourceRings == t.resourceRings
  }

  lemma CreateRingKeepsReadable(t: Tables, ring: Name)
    requires Readable(t) && ValidName(ring)
    ensures Readable(t.(rings := t.rings[ring := EncodeChunks([])]))
  {
    var t' := t.(rings := t.rings[ring := EncodeChunks([])]);
    forall r
      ensures ReadableRow(t', r)
    {
      assert ReadableRow(t, r);
    }
  }

  lemma SameNamesSameReadable(t: Tables, t': Tables)
    requires Readable(t) && SameNames(t, t')
    ensures Readable(t')
  {
    forall r
      ensures ReadableRow(t', r)
    {
      assert ReadableRow(t, r);
    }
  }
}
