/** The in-memory backend: src/backends/memory.rs. */
module Memory {
  import opened Types
  import opened Ring
  import opened RegistrySpec
  import opened RegistryInvariants
  import opened Store
  import opened Associations

  class InMemoryRegistry {
    var rings: map<Name, seq<Peer>>
    var labels: map<Key, Label>
    var expiries: map<Key, Time>
    var resourceRings: map<Bytes, seq<Listed>>

    /** The fields as a store: what is left of a permission list is the set it lists. */
    ghost function Inner(): Store
      reads this
    {
      Store(rings, labels, expiries, ResourceSets(resourceRings))
    }

    ghost predicate Valid()
      reads this
    {
      Consistent(Inner())
    }

    /** The registry this object holds. */
    ghost function Abs(): Registry
      reads this
    {
      View(Inner())
    }

    constructor ()
      ensures Valid() && Abs() == INITIAL && resourceRings == map[]
    {
      rings, labels, expiries, resourceRings := map[OPEN_RING_NAME := []], map[], map[], map[];
      new;
      EmptyIsConsistent();
      assert Inner() == EMPTY;
    }

    /** `Inner::is_expired` */
    predicate IsExpired(ring: Name, peer: Peer, now: Time)
      reads this
    {
      match Get(expiries, (ring, peer))
      case Some(t) => now >= t
      case None => false
    }

    method CreateRing(ring: Name) returns (result: Result<()>)
      requires Valid()
      modifies this
      ensures Valid()
      ensures (Abs(), result) == RegistrySpec.CreateRing(old(Abs()), ring)
      ensures resourceRings == old(resourceRings)
    {
      var checked := NewRing(ring);
      if checked.Err? {
        return Err(checked.error);
      }
      if IsOpen(ring) {
        return Err(RingNameReserved(OPEN_RING_NAME));
      }
      if ring in rings {
        return Err(RingAlreadyExists(ring));
      }
      CreateRingRefines(Inner(), ring);
      rings := rings[ring := []];
      assert Inner() == CreateRingIn(old(Inner()), ring);
      result := Ok(());
    }

    method AddPeerToRing(ring: Name, peer: Peer, lbl: Option<Label>, expiresAt: Option<Time>, now: Time)
      returns (result: Result<()>)
      requires Valid()
      modifies this
      ensures Valid()
      ensures (Abs(), result) == AddPeer(old(Abs()), ring, peer, lbl, expiresAt, now)
      ensures resourceRings == old(resourceRings)
    {
      if ring !in rings {
        return Err(RingNotFound(ring));
      }
      AddPeerRefines(Inner(), ring, peer, lbl, expiresAt, now);
      var members, k := rings[ring], (ring, peer);
      if peer !in members {
        rings := rings[ring := members + [peer]];
      } else if IsExpired(ring, peer, now) {
        // An expired membership counts as removed: its label and expiry go.
        labels, expiries := labels - {k}, expiries - {k};
      }
      ghost var joined := Inner();
      assert joined == JoinedIn(old(Inner()), ring, peer, now);
      if lbl.Some? {
        labels := labels[k := lbl.value];
      }
      ghost var labelled := Inner();
      assert labelled == LabelledIn(joined, k, lbl);
      if expiresAt.Some? {
        expiries := expiries[k := expiresAt.value];
      }
      assert Inner() == ExpiringIn(labelled, k, expiresAt);
      result := Ok(());
    }

    method RemovePeerFromRing(ring: Name, peer: Peer) returns (result: Result<()>)
      requires Valid()
      modifies this
      ensures Valid()
      ensures (Abs(), result) == RemovePeer(old(Abs()), ring, peer)
      ensures resourceRings == old(resourceRings)
    {
      if ring !in rings {
        return Err(RingNotFound(ring));
      }
      RemovePeerRefines(Inner(), ring, peer);
      rings := rings[ring := Retain(rings[ring], {peer})];
      labels, expiries := labels - {(ring, peer)}, expiries - {(ring, peer)};
      assert Inner() == RemovePeerIn(old(Inner()), ring, peer);
      result := Ok(());
    }

    method ListRingPeers(ring: Name, now: Time) returns (result: Result<seq<Member>>)
      requires Valid()
      ensures result == RegistrySpec.ListRingPeers(Abs(), ring, now)
    {
      if ring !in rings {
        return Err(RingNotFound(ring));
      }
      var members, peers := rings[ring], [];
      for i := 0 to |members|
        invariant peers == Unexpired(MembersOf(Inner(), ring, members[..i]), now)
      {
        ListingGrows(Inner(), ring, members, now, i);
        if !IsExpired(ring, members[i], now) {
          var k := (ring, members[i]);
          peers := peers + [Member(members[i], Get(labels, k), Get(expiries, k))];
        }
      }
      assert members[..|members|] == members;
      result := Ok(peers);
    }

    method ListRings() returns (names: seq<Name>)
      requires Valid()
      ensures NoDuplicates(names) && Elements(names) == Abs().rings.Keys
      ensures names != [] && names[0] == OPEN_RING_NAME
    {
      assert Abs().rings.Keys == rings.Keys;
      assert OPEN_RING_NAME in Abs().rings;
      forall name | name in rings.Keys
        ensures ValidName(name)
      {
        assert GoodRing(Abs(), name);
      }
      names := ListNames(rings.Keys);
    }

    method RemoveRingFromResource(resource: Bytes)
      requires Valid()
      modifies this
      ensures Valid()
      ensures Abs() == RemoveRings(old(Abs()), resource)
      ensures resourceRings == old(resourceRings) - {resource}
    {
      RemoveRingsRefines(Inner(), resource);
      resourceRings := resourceRings - {resource};
      assert Inner() == old(Inner()).(resources := old(Inner()).resources - {resource});
    }

    method ListResourceRings(resource: Bytes) returns (entries: seq<Listed>)
      requires Valid()
      ensures AsSets(entries) == EntriesOf(Abs().resources, resource)
      ensures entries == EntriesOf(resourceRings, resource)
    {
      entries := EntriesOf(resourceRings, resource);
    }

    method AddRingToResource(resource: Bytes, ring: Name, permissions: seq<Permission>) returns (result: Result<()>)
      requires Valid()
      modifies this
      ensures Valid()
      ensures (Abs(), result) == AddRing(old(Abs()), resource, ring, Elements(permissions))
      ensures resourceRings ==
              if result.Err? then old(resourceRings)
              else old(resourceRings)[
                     resource := Associate(EntriesOf(old(resourceRings), resource), ring, permissions)]
    {
      result := ValidateRingPermissions(ring, permissions);
      if result.Err? {
        return;
      }
      if ring !in rings {
        return Err(RingNotFound(ring));
      }
      AddRingRefines(Inner(), resource, ring, Elements(permissions));
      var existing := EntriesOf(resourceRings, resource);
      var updated := ComputeResourceRings(existing, ring, permissions);
      AssociateAsSets(existing, ring, permissions);
      resourceRings := resourceRings[resource := updated];
      assert Inner() == AddRingIn(old(Inner()), resource, ring, Elements(permissions));
    }

    method HasPermission(peer: Peer, resource: Bytes, permission: Permission, now: Time) returns (granted: bool)
      requires Valid()
      ensures granted == RegistrySpec.HasPermission(Abs(), peer, resource, permission, now)
    {
      if resource !in resourceRings {
        return false;
      }
      var entries := resourceRings[resource];
      ghost var st := Inner();
      ghost var associations := st.resources[resource];
      for i := 0 to |entries|
        invariant NoneGrants(View(st), associations, i, peer, permission, now)
      {
        var ring := entries[i].ring;
        if ring in rings {
          LiveMemberInStore(st, ring, peer, now);
        }
        if permission in entries[i].permissions {
          if ring == OPEN_RING_NAME {
            GrantedBy(View(st), resource, i, peer, permission, now);
            return true;
          }
          if ring in rings && peer in rings[ring] && !IsExpired(ring, peer, now) {
            GrantedBy(View(st), resource, i, peer, permission, now);
            return true;
          }
        }
      }
      GrantedByNone(View(st), resource, peer, permission, now);
      return false;
    }

    /** The filtered iteration `evict_expired` starts with. */
    method CollectExpired(now: Time) returns (keys: seq<Key>)
      ensures NoDuplicates(keys) && Elements(keys) == ExpiredKeys(Inner(), now)
    {
      var entries := Iterate(expiries.Keys);
      keys := [];
      for i := 0 to |entries|
        invariant NoDuplicates(keys)
        invariant Elements(keys) == set k | k in Elements(entries[..i]) && now >= expiries[k]
      {
        assert entries[i] in Elements(entries) && entries[i] !in entries[..i];
        assert Elements(entries[..i + 1]) == Elements(entries[..i]) + {entries[i]};
        if now >= expiries[entries[i]] {
          assert entries[i] !in Elements(keys);
          assert Elements(keys + [entries[i]]) == Elements(keys) + {entries[i]};
          keys := keys + [entries[i]];
        }
      }
      assert entries[..|entries|] == entries;
    }

    /** The body of `evict_expired`'s loop. */
    method DropMembership(ring: Name, peer: Peer)
      modifies this
      ensures Inner() == WithoutKeys(old(Inner()), {(ring, peer)})
      ensures resourceRings == old(resourceRings)
    {
      WithoutOneKey(Inner(), ring, peer);
      if ring in rings {
        rings := rings[ring := Retain(rings[ring], {peer})];
      }
      labels := labels - {(ring, peer)};
      expiries := expiries - {(ring, peer)};
    }

    /** Every expired membership goes, one key after another, in whatever order the table yields them. */
    method EvictExpired(now: Time) returns (evicted: seq<Key>)
      requires Valid()
      modifies this
      ensures Valid()
      ensures Abs() == Evict(old(Abs()), now)
      ensures resourceRings == old(resourceRings)
      ensures NoDuplicates(evicted) && Elements(evicted) == Evicted(old(Abs()), now)
    {
      ghost var before := Inner();
      var keys := CollectExpired(now);
      evicted := [];
      WithoutNoKeys(before);
      assert Elements(keys[..0]) == {};
      for i := 0 to |keys|
        invariant evicted == keys[..i]
        invariant Inner() == WithoutKeys(before, Elements(keys[..i])) && resourceRings == old(resourceRings)
      {
        OneMoreKey(before, keys, i);
        var (ring, peer) := keys[i];
        DropMembership(ring, peer);
        evicted := evicted + [keys[i]];
      }
      assert keys[..|keys|] == keys;
      EvictRefines(before, now);
    }
  }
}
