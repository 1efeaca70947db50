/**
 What each operation of the registry does, spelled out: the exact condition of every error, and the new
 state in terms of positions, given values and clock comparisons.
 */
module RegistryMeaning {
  import opened Types
  import opened Ring
  import opened RegistrySpec
  import opened RegistryInvariants

  // ---------------------------------------------------------------- rings

  /** "open" is a valid name: only being reserved keeps it from being created. */
  lemma OpenNameIsValid()
    ensures OPEN_RING_NAME == [0x6F, 0x70, 0x65, 0x6E] && ValidName(OPEN_RING_NAME)
  {
    InitialIsWellFormed();
    assert GoodRing(INITIAL, OPEN_RING_NAME);
  }

  lemma CreateRingResult(s: Registry, ring: Name)
    ensures var r := CreateRing(s, ring).1;
      && (r == Ok(()) <==> ValidName(ring) && ring != OPEN_RING_NAME && ring !in s.rings)
      && (r == Err(RingNameEmpty) <==> ring == [])
      && (r == Err(RingNameInvalidChars) <==> exists i :: 0 <= i < |ring| && (ring[i] == 0 || WhitespaceAt(ring, i)))
      && (r == Err(RingNameReserved(OPEN_RING_NAME)) <==> ring == OPEN_RING_NAME)
      && (r == Err(RingAlreadyExists(ring)) <==> ValidName(ring) && ring != OPEN_RING_NAME && ring in s.rings)
  {
    OpenNameIsValid();
  }

  lemma CreateRingState(s: Registry, ring: Name)
    ensures CreateRing(s, ring).1.Err? ==> CreateRing(s, ring).0 == s
    ensures CreateRing(s, ring).1.Ok? ==>
              var s' := CreateRing(s, ring).0;
              && s'.resources == s.resources
              && s'.rings.Keys == s.rings.Keys + {ring} && s'.rings[ring] == []
              && forall r :: r in s.rings ==> s'.rings[r] == s.rings[r]
  {
  }

  // ---------------------------------------------------------------- adding a peer

  lemma FoundAt(ms: seq<Member>, i: nat)
    requires DistinctPeers(ms) && i < |ms|
    ensures FindPeer(ms, ms[i].peer) == i
  {
  }

  /** A missing ring is refused; otherwise only that ring's members can change. */
  lemma AddPeerFrame(
    s: Registry, ring: Name, peer: Peer, lbl: Option<Label>, expiresAt: Option<Time>, now: Time)
    ensures ring !in s.rings ==> AddPeer(s, ring, peer, lbl, expiresAt, now) == (s, Err(RingNotFound(ring)))
    ensures ring in s.rings ==>
              var (s', r) := AddPeer(s, ring, peer, lbl, expiresAt, now);
              && r == Ok(()) && s'.resources == s.resources && s'.rings.Keys == s.rings.Keys
              && forall other :: other in s.rings && other != ring ==> s'.rings[other] == s.rings[other]
  {
  }

  /** A peer that is not in the ring becomes its last member, with what is given. */
  lemma AddNewPeer(s: Registry, ring: Name, peer: Peer, lbl: Option<Label>, expiresAt: Option<Time>, now: Time)
    requires ring in s.rings && forall i :: 0 <= i < |s.rings[ring]| ==> s.rings[ring][i].peer != peer
    ensures AddPeer(s, ring, peer, lbl, expiresAt, now).0.rings[ring]
            == s.rings[ring] + [Member(peer, lbl, expiresAt)]
  {
  }

  /** A live member keeps its place, and whichever of label and expiry is not given anew. */
  lemma ReaddLivePeer(
    s: Registry, ring: Name, i: nat, lbl: Option<Label>, expiresAt: Option<Time>, now: Time)
    requires WellFormed(s) && ring in s.rings && i < |s.rings[ring]|
    requires var m := s.rings[ring][i]; m.expiresAt.None? || now < m.expiresAt.value
    ensures var m := s.rings[ring][i];
      AddPeer(s, ring, m.peer, lbl, expiresAt, now).0.rings[ring] ==
      s.rings[ring][i := Member(m.peer,
                                if lbl.Some? then lbl else m.lbl,
                                if expiresAt.Some? then expiresAt else m.expiresAt)]
  {
    assert GoodRing(s, ring);
    FoundAt(s.rings[ring], i);
  }

  /** An expired member keeps its place and nothing else. */
  lemma ReaddExpiredPeer(
    s: Registry, ring: Name, i: nat, lbl: Option<Label>, expiresAt: Option<Time>, now: Time)
    requires WellFormed(s) && ring in s.rings && i < |s.rings[ring]|
    requires var m := s.rings[ring][i]; m.expiresAt.Some? && m.expiresAt.value <= now
    ensures var m := s.rings[ring][i];
      AddPeer(s, ring, m.peer, lbl, expiresAt, now).0.rings[ring] ==
      s.rings[ring][i := Member(m.peer, lbl, expiresAt)]
  {
    assert GoodRing(s, ring);
    FoundAt(s.rings[ring], i);
  }

  /** `ring`, a private one, is associated with the resource and grants the permission, and no other ring does. */
  ghost predicate GrantedOnlyBy(s: Registry, resource: Bytes, permission: Permission, ring: Name) {
    && ring != OPEN_RING_NAME
    && (exists a :: a in EntriesOf(s.resources, resource) && a.ring == ring && permission in a.permissions)
    && forall a :: a in EntriesOf(s.resources, resource) && permission in a.permissions ==> a.ring == ring
  }

  /** Then the peer's record in that ring decides. */
  lemma RecordDecides(
    s: Registry, resource: Bytes, permission: Permission, ring: Name, i: nat, t: Time)
    requires WellFormed(s) && ring in s.rings && i < |s.rings[ring]|
    requires GrantedOnlyBy(s, resource, permission, ring)
    ensures var m := s.rings[ring][i];
      HasPermission(s, m.peer, resource, permission, t) <==> m.expiresAt.None? || t < m.expiresAt.value
  {
    var m := s.rings[ring][i];
    assert GoodRing(s, ring) && m in s.rings[ring];
    assert LiveMember(s.rings[ring], m.peer, t) <==> !Expired(m, t);
    forall a | a in EntriesOf(s.resources, resource)
      ensures Grants(s, a, m.peer, permission, t) <==> permission in a.permissions && !Expired(m, t)
    {
    }
  }

  /** Re-adding a live member with an expiry moves the end of its access there, later or earlier than it was. */
  lemma ReaddedAccessEnds(
    s: Registry, resource: Bytes, permission: Permission, ring: Name, i: nat, lbl: Option<Label>,
    expiresAt: Option<Time>, now: Time, t: Time)
    requires WellFormed(s) && ring in s.rings && i < |s.rings[ring]|
    requires var m := s.rings[ring][i]; m.expiresAt.None? || now < m.expiresAt.value
    requires GrantedOnlyBy(s, resource, permission, ring)
    ensures var m := s.rings[ring][i];
      var s' := AddPeer(s, ring, m.peer, lbl, expiresAt, now).0;
      HasPermission(s', m.peer, resource, permission, t) <==>
      match expiresAt
      case Some(e) => t < e
      case None => m.expiresAt.None? || t < m.expiresAt.value
  {
    var m := s.rings[ring][i];
    var s' := AddPeer(s, ring, m.peer, lbl, expiresAt, now).0;
    ReaddLivePeer(s, ring, i, lbl, expiresAt, now);
    AddPeerKeepsWellFormed(s, ring, m.peer, lbl, expiresAt, now);
    RecordDecides(s', resource, permission, ring, i, t);
  }

  // ---------------------------------------------------------------- removing a peer

  lemma {:induction false} WithoutPeerAt(ms: seq<Member>, i: nat)
    requires DistinctPeers(ms) && i < |ms|
    ensures WithoutPeer(ms, ms[i].peer) == ms[..i] + ms[i + 1..]
  {
    if i == 0 {
      WithoutMissingPeer(ms[1..], ms[0].peer);
    } else {
      WithoutPeerAt(ms[1..], i - 1);
      assert [ms[0]] + (ms[1..][..i - 1] + ms[1..][i..]) == ms[..i] + ms[i + 1..];
    }
  }

  lemma {:induction false} WithoutMissingPeer(ms: seq<Member>, peer: Peer)
    requires forall m :: m in ms ==> m.peer != peer
    ensures WithoutPeer(ms, peer) == ms
  {
    if ms != [] {
      assert ms[0] in ms;
      WithoutMissingPeer(ms[1..], peer);
      assert ms == [ms[0]] + ms[1..];
    }
  }

  /** A missing ring is refused; a missing peer makes no difference. */
  lemma RemovePeerFrame(s: Registry, ring: Name, peer: Peer)
    ensures ring !in s.rings ==> RemovePeer(s, ring, peer) == (s, Err(RingNotFound(ring)))
    ensures ring in s.rings ==>
              var (s', r) := RemovePeer(s, ring, peer);
              && r == Ok(()) && s'.resources == s.resources && s'.rings.Keys == s.rings.Keys
              && (forall other :: other in s.rings && other != ring ==> s'.rings[other] == s.rings[other])
              && ((forall m :: m in s.rings[ring] ==> m.peer != peer) ==> s'.rings[ring] == s.rings[ring])
  {
    if ring in s.rings && forall m :: m in s.rings[ring] ==> m.peer != peer {
      WithoutMissingPeer(s.rings[ring], peer);
    }
  }

  /** The member goes and the others close up. */
  lemma RemoveMember(s: Registry, ring: Name, i: nat)
    requires WellFormed(s) && ring in s.rings && i < |s.rings[ring]|
    ensures var ms := s.rings[ring];
      RemovePeer(s, ring, ms[i].peer).0.rings[ring] == ms[..i] + ms[i + 1..]
  {
    assert GoodRing(s, ring);
    WithoutPeerAt(s.rings[ring], i);
  }

  // ---------------------------------------------------------------- listing and evicting

  ghost predicate LiveAt(m: Member, now: Time) {
    m.expiresAt.None? || now < m.expiresAt.value
  }

  /** `r` has the live members of `ms`, in their order. */
  ghost predicate LiveInOrder(ms: seq<Member>, r: seq<Member>, now: Time) {
    && (forall m :: m in r <==> m in ms && LiveAt(m, now))
    && forall i, j, p, q :: 0 <= i < j < |r| && 0 <= p < |ms| && 0 <= q < |ms| && ms[p] == r[i] && ms[q] == r[j] ==>
         p < q
  }

  lemma {:induction false} UnexpiredInOrder(ms: seq<Member>, now: Time)
    requires DistinctPeers(ms)
    ensures LiveInOrder(ms, Unexpired(ms, now), now) && DistinctPeers(Unexpired(ms, now))
  {
    UnexpiredElements(ms, now);
    UnexpiredKeepsDistinct(ms, now);
    if ms != [] {
      var tail, r, r' := ms[1..], Unexpired(ms, now), Unexpired(ms[1..], now);
      UnexpiredInOrder(tail, now);
      forall i, j, p, q | 0 <= i < j < |r| && 0 <= p < |ms| && 0 <= q < |ms| && ms[p] == r[i] && ms[q] == r[j]
        ensures p < q
      {
        if Expired(ms[0], now) {
          assert ms[0] !in r;
          assert tail[p - 1] == r'[i] && tail[q - 1] == r'[j];
        } else {
          assert r == [ms[0]] + r';
          if i > 0 {
            assert r[0] == ms[0] && r[i].peer != r[0].peer && r[j].peer != r[0].peer;
            assert tail[p - 1] == r'[i - 1] && tail[q - 1] == r'[j - 1];
          } else {
            assert r[0] == ms[0] && r[j].peer != r[0].peer;
            assert ms[p] == ms[0];
          }
        }
      }
    }
  }

  /** Listing a ring: refused when it does not exist, and otherwise its live members, each once, in order. */
  lemma ListRingPeersMeaning(s: Registry, ring: Name, now: Time)
    requires WellFormed(s)
    ensures ring !in s.rings ==> ListRingPeers(s, ring, now) == Err(RingNotFound(ring))
    ensures ring in s.rings ==>
              var r := ListRingPeers(s, ring, now);
              r.Ok? && LiveInOrder(s.rings[ring], r.value, now) && DistinctPeers(r.value)
  {
    if ring in s.rings {
      assert GoodRing(s, ring);
      UnexpiredInOrder(s.rings[ring], now);
    }
  }

  /** Evicting leaves each ring its live members, in order, and everything else, and returns the others. */
  lemma EvictMeaning(s: Registry, now: Time)
    requires WellFormed(s)
    ensures var s' := Evict(s, now);
      && s'.resources == s.resources && s'.rings.Keys == s.rings.Keys
      && forall ring :: ring in s.rings ==> LiveInOrder(s.rings[ring], s'.rings[ring], now)
    ensures forall ring, peer: Peer :: (ring, peer) in Evicted(s, now) <==>
              ring in s.rings && exists m :: m in s.rings[ring] && m.peer == peer && !LiveAt(m, now)
  {
    forall ring | ring in s.rings
      ensures LiveInOrder(s.rings[ring], Evict(s, now).rings[ring], now)
    {
      assert GoodRing(s, ring);
      UnexpiredInOrder(s.rings[ring], now);
    }
    forall m: Member
      ensures Expired(m, now) <==> !LiveAt(m, now)
    {
    }
  }

  // ---------------------------------------------------------------- associations

  /** Which associations are refused, and how. */
  lemma AddRingResult(s: Registry, resource: Bytes, ring: Name, permissions: set<Permission>)
    ensures var r := AddRing(s, resource, ring, permissions).1;
      && (r == Ok(()) <==>
          permissions != {} && ring in s.rings && (ring == OPEN_RING_NAME ==> permissions == {Read}))
      && (r == Err(EmptyPermissionSet) <==> permissions == {})
      && (r == Err(OpenRingReadOnly) <==>
          ring == OPEN_RING_NAME && permissions != {} && permissions != {Read})
      && (r == Err(RingNotFound(ring)) <==>
          permissions != {} && ring !in s.rings && (ring == OPEN_RING_NAME ==> permissions == {Read}))
  {
  }

  /** An association there is changes in its place; a new one comes last; nothing else changes. */
  lemma AddRingState(s: Registry, resource: Bytes, ring: Name, permissions: set<Permission>)
    requires WellFormed(s)
    ensures AddRing(s, resource, ring, permissions).1.Err? ==> AddRing(s, resource, ring, permissions).0 == s
    ensures AddRing(s, resource, ring, permissions).1.Ok? ==>
              var s', es := AddRing(s, resource, ring, permissions).0, EntriesOf(s.resources, resource);
              && s'.rings == s.rings && s'.resources.Keys == s.resources.Keys + {resource}
              && (forall r :: r in s.resources && r != resource ==> s'.resources[r] == s.resources[r])
              && ((forall e :: e in es ==> e.ring != ring) ==>
                    s'.resources[resource] == es + [Entry(ring, permissions)])
              && forall i :: 0 <= i < |es| && es[i].ring == ring ==>
                   s'.resources[resource] == es[i := Entry(ring, permissions)]
  {
    var es := EntriesOf(s.resources, resource);
    assert GoodResource(s, resource);
    if FindRing(es, ring) < |es| {
      assert es[FindRing(es, ring)] in es;
    }
  }

  lemma RemoveRingsMeaning(s: Registry, resource: Bytes)
    ensures var s' := RemoveRings(s, resource);
      && s'.rings == s.rings && s'.resources.Keys == s.resources.Keys - {resource}
      && forall r :: r in s'.resources ==> s'.resources[r] == s.resources[r]
  {
  }

  /** Any association that grants, through the open ring or a live membership, is enough; nothing else is. */
  lemma HasPermissionMeaning(s: Registry, peer: Peer, resource: Bytes, permission: Permission, now: Time)
    ensures HasPermission(s, peer, resource, permission, now) <==>
            && resource in s.resources
            && exists i :: 0 <= i < |s.resources[resource]|
                && GrantsAt(s, s.resources[resource][i], peer, permission, now)
  {
    if resource in s.resources {
      forall a | a in s.resources[resource]
        ensures Grants(s, a, peer, permission, now) <==> GrantsAt(s, a, peer, permission, now)
      {
        assert forall m: Member :: Expired(m, now) <==> !LiveAt(m, now);
      }
      if HasPermission(s, peer, resource, permission, now) {
        var a :| a in s.resources[resource] && Grants(s, a, peer, permission, now);
        var i :| 0 <= i < |s.resources[resource]| && s.resources[resource][i] == a;
      }
    }
  }

  ghost predicate GrantsAt(s: Registry, a: Association, peer: Peer, permission: Permission, now: Time) {
    && permission in a.permissions
    && (a.ring == OPEN_RING_NAME
        || (a.ring in s.rings && exists m :: m in s.rings[a.ring] && m.peer == peer && LiveAt(m, now)))
  }
}
