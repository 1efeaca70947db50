/**
 What every operation keeps and what every run of operations can reach: well-formedness, the
 limits of the open ring, and which access decisions an operation can change at all.
 */
module RegistryInvariants {
  import opened Types
  import opened Ring
  import opened RegistrySpec

  // ---------------------------------------------------------------- membership lookups

  /** `peer`'s member record, expired or not. */
  function Lookup(ms: seq<Member>, peer: Peer): Option<Member> {
    var i := FindPeer(ms, peer);
    if i < |ms| then Some(ms[i]) else None
  }

  /** `peer`'s member record if its membership has not expired at `now`. */
  function LiveRecord(ms: seq<Member>, peer: Peer, now: Time): Option<Member> {
    match Lookup(ms, peer)
    case Some(m) => if Expired(m, now) then None else Some(m)
    case None => None
  }

  lemma LookupFinds(ms: seq<Member>, peer: Peer)
    requires DistinctPeers(ms)
    ensures forall m :: Lookup(ms, peer) == Some(m) <==> m in ms && m.peer == peer
  {
    forall m | m in ms && m.peer == peer
      ensures Lookup(ms, peer) == Some(m)
    {
      var i :| 0 <= i < |ms| && ms[i] == m;
      assert FindPeer(ms, peer) == i;
    }
  }

  lemma {:induction false} UnexpiredElements(ms: seq<Member>, now: Time)
    ensures forall m :: m in Unexpired(ms, now) <==> m in ms && !Expired(m, now)
  {
    if ms != [] {
      UnexpiredElements(ms[1..], now);
    }
  }

  lemma {:induction false} WithoutPeerElements(ms: seq<Member>, peer: Peer)
    ensures forall m :: m in WithoutPeer(ms, peer) <==> m in ms && m.peer != peer
  {
    if ms != [] {
      WithoutPeerElements(ms[1..], peer);
    }
  }

  lemma LiveMemberIsLookup(ms: seq<Member>, peer: Peer, now: Time)
    requires DistinctPeers(ms)
    ensures LiveMember(ms, peer, now) <==> LiveRecord(ms, peer, now).Some?
  {
    LookupFinds(ms, peer);
  }

  lemma {:induction false} UnexpiredKeepsDistinct(ms: seq<Member>, now: Time)
    requires DistinctPeers(ms)
    ensures DistinctPeers(Unexpired(ms, now))
  {
    if ms != [] {
      UnexpiredKeepsDistinct(ms[1..], now);
      UnexpiredElements(ms[1..], now);
      var rest := Unexpired(ms[1..], now);
      forall j | 0 <= j < |rest|
        ensures rest[j].peer != ms[0].peer
      {
        assert rest[j] in ms[1..];
      }
    }
  }

  lemma {:induction false} WithoutPeerKeepsDistinct(ms: seq<Member>, peer: Peer)
    requires DistinctPeers(ms)
    ensures DistinctPeers(WithoutPeer(ms, peer))
  {
    if ms != [] {
      WithoutPeerKeepsDistinct(ms[1..], peer);
      WithoutPeerElements(ms[1..], peer);
      var rest := WithoutPeer(ms[1..], peer);
      forall j | 0 <= j < |rest|
        ensures rest[j].peer != ms[0].peer
      {
        assert rest[j] in ms[1..];
      }
    }
  }

  /** The record `peer` has once it has been added. */
  function RecordAfterAdd(ms: seq<Member>, peer: Peer, lbl: Option<Label>, expiresAt: Option<Time>, now: Time): Member {
    match Lookup(ms, peer)
    case Some(m) => Renewed(m, lbl, expiresAt, now)
    case None => Member(peer, lbl, expiresAt)
  }

  /** `ms` with the record at `i` replaced, or one appended, by a record that alone has its peer. */
  ghost predicate OneRecordSet(ms: seq<Member>, r: seq<Member>, i: nat, record: Member) {
    && i < |r| && (|r| == |ms| || (|r| == |ms| + 1 && i == |ms|))
    && r[i] == record
    && forall j :: 0 <= j < |ms| && j != i ==> r[j] == ms[j] && ms[j].peer != record.peer
  }

  lemma ElementsOfOneRecordSet(ms: seq<Member>, r: seq<Member>, i: nat, record: Member)
    requires DistinctPeers(ms) && OneRecordSet(ms, r, i, record)
    requires i < |ms| ==> ms[i].peer == record.peer
    ensures DistinctPeers(r)
    ensures forall m :: m in r <==> m == record || (m in ms && m.peer != record.peer)
  {
    forall m | m in ms && m.peer != record.peer
      ensures m in r
    {
      var j :| 0 <= j < |ms| && ms[j] == m;
      assert r[j] == m;
    }
  }

  lemma EnrolledElements(ms: seq<Member>, peer: Peer, lbl: Option<Label>, expiresAt: Option<Time>, now: Time)
    requires DistinctPeers(ms)
    ensures DistinctPeers(Enrolled(ms, peer, lbl, expiresAt, now))
    ensures forall m :: m in Enrolled(ms, peer, lbl, expiresAt, now) <==>
              m == RecordAfterAdd(ms, peer, lbl, expiresAt, now) || (m in ms && m.peer != peer)
  {
    var i, record := FindPeer(ms, peer), RecordAfterAdd(ms, peer, lbl, expiresAt, now);
    assert OneRecordSet(ms, Enrolled(ms, peer, lbl, expiresAt, now), i, record);
    ElementsOfOneRecordSet(ms, Enrolled(ms, peer, lbl, expiresAt, now), i, record);
  }

  /** The three list updates, seen through lookups. */
  lemma LookupEnrolled(ms: seq<Member>, peer: Peer, lbl: Option<Label>, expiresAt: Option<Time>, now: Time, q: Peer)
    requires DistinctPeers(ms)
    ensures DistinctPeers(Enrolled(ms, peer, lbl, expiresAt, now))
    ensures Lookup(Enrolled(ms, peer, lbl, expiresAt, now), q) ==
            if q != peer then Lookup(ms, q) else Some(RecordAfterAdd(ms, peer, lbl, expiresAt, now))
  {
    EnrolledElements(ms, peer, lbl, expiresAt, now);
    LookupFinds(ms, q);
    LookupFinds(Enrolled(ms, peer, lbl, expiresAt, now), q);
  }

  lemma LookupWithoutPeer(ms: seq<Member>, peer: Peer, q: Peer)
    requires DistinctPeers(ms)
    ensures DistinctPeers(WithoutPeer(ms, peer))
    ensures Lookup(WithoutPeer(ms, peer), q) == if q == peer then None else Lookup(ms, q)
  {
    WithoutPeerKeepsDistinct(ms, peer);
    WithoutPeerElements(ms, peer);
    LookupFinds(ms, q);
    LookupFinds(WithoutPeer(ms, peer), q);
  }

  lemma LookupUnexpired(ms: seq<Member>, now: Time, q: Peer)
    requires DistinctPeers(ms)
    ensures DistinctPeers(Unexpired(ms, now))
    ensures Lookup(Unexpired(ms, now), q) == LiveRecord(ms, q, now)
  {
    UnexpiredKeepsDistinct(ms, now);
    UnexpiredElements(ms, now);
    LookupFinds(ms, q);
    LookupFinds(Unexpired(ms, now), q);
  }

  // ---------------------------------------------------------------- the invariant

  ghost predicate WellFormedAssociations(s: Registry, entries: seq<Association>) {
    && DistinctRings(entries)
    && forall a :: a in entries ==>
         && a.ring in s.rings
         && a.permissions != {}
         && (IsOpen(a.ring) ==> a.permissions == {Read})
  }

  ghost predicate GoodRing(s: Registry, ring: Name) {
    ring in s.rings ==> ValidName(ring) && DistinctPeers(s.rings[ring])
  }

  ghost predicate GoodResource(s: Registry, resource: Bytes) {
    resource in s.resources ==> WellFormedAssociations(s, s.resources[resource])
  }

  ghost predicate WellFormed(s: Registry) {
    && OPEN_RING_NAME in s.rings
    && (forall ring :: GoodRing(s, ring))
    && (forall resource :: GoodResource(s, resource))
  }

  lemma InitialIsWellFormed()
    ensures WellFormed(INITIAL)
  {
    assert forall i :: 0 <= i < 4 ==> !WhitespaceAt(OPEN_RING_NAME, i);
  }

  lemma AssociateElements<P>(es: seq<Entry<P>>, ring: Name, permissions: P)
    requires DistinctRings(es)
    ensures DistinctRings(Associate(es, ring, permissions))
    ensures forall a :: a in Associate(es, ring, permissions) <==>
              a == Entry(ring, permissions) || (a in es && a.ring != ring)
  {
    var r := Associate(es, ring, permissions);
    var i := FindRing(es, ring);
    assert r[i] == Entry(ring, permissions);
    assert forall j :: 0 <= j < |es| && j != i ==> r[j] == es[j] && es[j].ring != ring;
    forall a | a in es && a.ring != ring
      ensures a in r
    {
      var j :| 0 <= j < |es| && es[j] == a;
      assert r[j] == a;
    }
  }

  /** The invariant survives an update of the rings that loses none and keeps each one's members distinct. */
  lemma RingUpdateKeepsWellFormed(s: Registry, s': Registry)
    requires WellFormed(s)
    requires s'.resources == s.resources && s.rings.Keys <= s'.rings.Keys
    requires forall ring :: GoodRing(s', ring)
    ensures WellFormed(s')
  {
    forall resource
      ensures GoodResource(s', resource)
    {
      assert GoodResource(s, resource);
    }
  }

  lemma CreateRingKeepsWellFormed(s: Registry, ring: Name)
    requires WellFormed(s)
    ensures WellFormed(CreateRing(s, ring).0)
  {
    var s' := CreateRing(s, ring).0;
    forall r
      ensures GoodRing(s', r)
    {
      assert GoodRing(s, r);
    }
    RingUpdateKeepsWellFormed(s, s');
  }

  lemma AddPeerKeepsWellFormed(
    s: Registry, ring: Name, peer: Peer, lbl: Option<Label>, expiresAt: Option<Time>, now: Time)
    requires WellFormed(s)
    ensures WellFormed(AddPeer(s, ring, peer, lbl, expiresAt, now).0)
  {
    var s' := AddPeer(s, ring, peer, lbl, expiresAt, now).0;
    forall r
      ensures GoodRing(s', r)
    {
      assert GoodRing(s, r);
      if ring in s.rings && r == ring {
        LookupEnrolled(s.rings[ring], peer, lbl, expiresAt, now, peer);
      }
    }
    RingUpdateKeepsWellFormed(s, s');
  }

  lemma RemovePeerKeepsWellFormed(s: Registry, ring: Name, peer: Peer)
    requires WellFormed(s)
    ensures WellFormed(RemovePeer(s, ring, peer).0)
  {
    var s' := RemovePeer(s, ring, peer).0;
    forall r
      ensures GoodRing(s', r)
    {
      assert GoodRing(s, r);
      if ring in s.rings && r == ring {
        WithoutPeerKeepsDistinct(s.rings[ring], peer);
      }
    }
    RingUpdateKeepsWellFormed(s, s');
  }

  lemma EvictKeepsWellFormed(s: Registry, now: Time)
    requires WellFormed(s)
    ensures WellFormed(Evict(s, now))
  {
    forall ring
      ensures GoodRing(Evict(s, now), ring)
    {
      assert GoodRing(s, ring);
      if ring in s.rings {
        UnexpiredKeepsDistinct(s.rings[ring], now);
      }
    }
    RingUpdateKeepsWellFormed(s, Evict(s, now));
  }

  lemma AddRingKeepsWellFormed(s: Registry, resource: Bytes, ring: Name, permissions: set<Permission>)
    requires WellFormed(s)
    ensures WellFormed(AddRing(s, resource, ring, permissions).0)
  {
    var (s', result) := AddRing(s, resource, ring, permissions);
    if result.Ok? {
      var entries := EntriesOf(s.resources, resource);
      forall r
        ensures GoodResource(s', r)
      {
        assert GoodResource(s, r);
        if r == resource {
          AssociateElements(entries, ring, permissions);
        }
      }
      forall r
        ensures GoodRing(s', r)
      {
        assert GoodRing(s, r);
      }
    }
  }

  lemma RemoveRingsKeepsWellFormed(s: Registry, resource: Bytes)
    requires WellFormed(s)
    ensures WellFormed(RemoveRings(s, resource))
  {
    forall r
      ensures GoodResource(RemoveRings(s, resource), r)
    {
      assert GoodResource(s, r);
    }
    forall r
      ensures GoodRing(RemoveRings(s, resource), r)
    {
      assert GoodRing(s, r);
    }
  }

  /** Every operation, failing or not, keeps the invariant; a failing one changes nothing. */
  lemma StepKeepsWellFormed(s: Registry, op: Operation)
    requires WellFormed(s)
    ensures WellFormed(Step(s, op).0)
    ensures Step(s, op).1.Done? && Step(s, op).1.result.Err? ==> Step(s, op).0 == s
  {
    match op
    case CreateRingOp(ring) =>
      CreateRingKeepsWellFormed(s, ring);
    case AddPeerOp(ring, peer, lbl, expiresAt, now) =>
      AddPeerKeepsWellFormed(s, ring, peer, lbl, expiresAt, now);
    case RemovePeerOp(ring, peer) =>
      RemovePeerKeepsWellFormed(s, ring, peer);
    case RemoveRingsOp(resource) =>
      RemoveRingsKeepsWellFormed(s, resource);
    case AddRingOp(resource, ring, permissions) =>
      AddRingKeepsWellFormed(s, resource, ring, Elements(permissions));
    case EvictOp(now) =>
      EvictKeepsWellFormed(s, now);
    case _ =>
  }

  lemma {:induction false} RunKeepsWellFormed(s: Registry, ops: seq<Operation>)
    requires WellFormed(s)
    ensures WellFormed(Run(s, ops).0)
    decreases |ops|
  {
    if ops != [] {
      StepKeepsWellFormed(s, ops[0]);
      RunKeepsWellFormed(Step(s, ops[0]).0, ops[1..]);
    }
  }

  // ---------------------------------------------------------------- the open ring

  /** A ring other than the open one that grants `permission` to its live member `peer`. */
  ghost predicate PrivateWitness(
    s: Registry, a: Association, peer: Peer, resource: Bytes, permission: Permission, now: Time)
  {
    && a in EntriesOf(s.resources, resource)
    && !IsOpen(a.ring)
    && a.ring in s.rings
    && permission in a.permissions
    && LiveMember(s.rings[a.ring], peer, now)
  }

  /**
   Whatever operations ran, from an initial or a migrated registry: the open ring carries `Read` and nothing
   else, no association is empty-handed, and `Write` or `Delete` is granted exactly to the live members of a
   private ring that carries it.
   */
  lemma OpenRingGrantsOnlyRead(
    start: Registry, ops: seq<Operation>, peer: Peer, resource: Bytes, permission: Permission, now: Time)
    requires WellFormed(start)
    ensures var s := Run(start, ops).0;
      && (forall a :: a in EntriesOf(s.resources, resource) ==>
            a.permissions != {} && (IsOpen(a.ring) ==> a.permissions == {Read}))
      && (permission != Read ==>
            (HasPermission(s, peer, resource, permission, now) <==>
             exists a :: PrivateWitness(s, a, peer, resource, permission, now)))
      && (permission == Read ==>
            (HasPermission(s, peer, resource, permission, now) <==>
             || (exists a :: a in EntriesOf(s.resources, resource) && IsOpen(a.ring))
             || (exists a :: PrivateWitness(s, a, peer, resource, permission, now))))
  {
    RunKeepsWellFormed(start, ops);
    var s := Run(start, ops).0;
    assert GoodResource(s, resource);
    forall a | a in EntriesOf(s.resources, resource) && Grants(s, a, peer, permission, now) && !IsOpen(a.ring)
      ensures PrivateWitness(s, a, peer, resource, permission, now)
    {
    }
    forall a | PrivateWitness(s, a, peer, resource, permission, now)
      ensures Grants(s, a, peer, permission, now)
    {
    }
    forall a | a in EntriesOf(s.resources, resource) && IsOpen(a.ring) && permission == Read
      ensures Grants(s, a, peer, permission, now)
    {
    }
  }

  lemma GrantedBy(s: Registry, resource: Bytes, i: nat, peer: Peer, permission: Permission, now: Time)
    requires i < |EntriesOf(s.resources, resource)|
    requires Grants(s, EntriesOf(s.resources, resource)[i], peer, permission, now)
    ensures HasPermission(s, peer, resource, permission, now)
  {
  }

  /** None of the first `n` associations grants. */
  ghost predicate NoneGrants(
    s: Registry, entries: seq<Association>, n: nat, peer: Peer, permission: Permission, now: Time)
    requires n <= |entries|
  {
    n > 0 ==> NoneGrants(s, entries, n - 1, peer, permission, now) && !Grants(s, entries[n - 1], peer, permission, now)
  }

  lemma {:induction false} NoneGrantsAll(
    s: Registry, entries: seq<Association>, n: nat, peer: Peer, permission: Permission, now: Time)
    requires n <= |entries| && NoneGrants(s, entries, n, peer, permission, now)
    ensures forall j :: 0 <= j < n ==> !Grants(s, entries[j], peer, permission, now)
  {
    if n > 0 {
      NoneGrantsAll(s, entries, n - 1, peer, permission, now);
    }
  }

  lemma GrantedByNone(s: Registry, resource: Bytes, peer: Peer, permission: Permission, now: Time)
    requires var entries := EntriesOf(s.resources, resource); NoneGrants(s, entries, |entries|, peer, permission, now)
    ensures !HasPermission(s, peer, resource, permission, now)
  {
    var entries := EntriesOf(s.resources, resource);
    NoneGrantsAll(s, entries, |entries|, peer, permission, now);
  }

  // ---------------------------------------------------------------- what an update can change

  ghost predicate AssociatedWith(s: Registry, resource: Bytes, ring: Name) {
    exists a :: a in EntriesOf(s.resources, resource) && a.ring == ring
  }

  /**
   Two registries with the same associations, whose rings agree on `peer` wherever `resource` has an
   association, decide alike.
   */
  lemma DecisionDependsOnRings(
    s: Registry, s': Registry, peer: Peer, resource: Bytes, permission: Permission, now: Time)
    requires s'.resources == s.resources && s'.rings.Keys == s.rings.Keys
    requires forall ring :: ring in s.rings && AssociatedWith(s, resource, ring) ==>
               LiveMember(s'.rings[ring], peer, now) == LiveMember(s.rings[ring], peer, now)
    ensures HasPermission(s', peer, resource, permission, now) == HasPermission(s, peer, resource, permission, now)
  {
    forall a | a in EntriesOf(s.resources, resource)
      ensures Grants(s', a, peer, permission, now) == Grants(s, a, peer, permission, now)
    {
      assert AssociatedWith(s, resource, a.ring);
    }
  }

  /**
   Adding or removing a member changes decisions only about that peer, and only on resources
   associated with that ring.
   */
  lemma MembershipUpdateFrame(
    s: Registry, ring: Name, peer: Peer, lbl: Option<Label>, expiresAt: Option<Time>, at: Time,
    q: Peer, resource: Bytes, permission: Permission, now: Time)
    requires WellFormed(s)
    requires q != peer || !AssociatedWith(s, resource, ring)
    ensures HasPermission(AddPeer(s, ring, peer, lbl, expiresAt, at).0, q, resource, permission, now)
            == HasPermission(s, q, resource, permission, now)
    ensures HasPermission(RemovePeer(s, ring, peer).0, q, resource, permission, now)
            == HasPermission(s, q, resource, permission, now)
  {
    if ring in s.rings {
      var ms := s.rings[ring];
      assert GoodRing(s, ring);
      LookupEnrolled(ms, peer, lbl, expiresAt, at, q);
      LookupWithoutPeer(ms, peer, q);
      LiveMemberIsLookup(ms, q, now);
      LiveMemberIsLookup(Enrolled(ms, peer, lbl, expiresAt, at), q, now);
      LiveMemberIsLookup(WithoutPeer(ms, peer), q, now);
      DecisionDependsOnRings(s, AddPeer(s, ring, peer, lbl, expiresAt, at).0, q, resource, permission, now);
      DecisionDependsOnRings(s, RemovePeer(s, ring, peer).0, q, resource, permission, now);
    }
  }

  /** Re-adding a live member without an expiry never widens (or narrows) access, at any clock reading. */
  lemma ReaddingLiveMemberKeepsAccess(
    s: Registry, ring: Name, peer: Peer, lbl: Option<Label>, at: Time,
    q: Peer, resource: Bytes, permission: Permission, now: Time)
    requires WellFormed(s)
    requires ring in s.rings && LiveMember(s.rings[ring], peer, at)
    ensures HasPermission(AddPeer(s, ring, peer, lbl, None, at).0, q, resource, permission, now)
            == HasPermission(s, q, resource, permission, now)
  {
    var ms := s.rings[ring];
    assert GoodRing(s, ring);
    LookupEnrolled(ms, peer, lbl, None, at, q);
    LiveMemberIsLookup(ms, peer, at);
    LiveMemberIsLookup(ms, q, now);
    LiveMemberIsLookup(Enrolled(ms, peer, lbl, None, at), q, now);
    DecisionDependsOnRings(s, AddPeer(s, ring, peer, lbl, None, at).0, q, resource, permission, now);
  }

  /** Removing a peer revokes what the ring gave it, and re-adding a removed or expired one carries nothing over. */
  lemma ReaddingStartsFresh(s: Registry, ring: Name, peer: Peer, lbl: Option<Label>, expiresAt: Option<Time>, at: Time)
    requires WellFormed(s) && ring in s.rings
    ensures Lookup(RemovePeer(s, ring, peer).0.rings[ring], peer) == None
    ensures Lookup(AddPeer(RemovePeer(s, ring, peer).0, ring, peer, lbl, expiresAt, at).0.rings[ring], peer)
            == Some(Member(peer, lbl, expiresAt))
    ensures !LiveMember(s.rings[ring], peer, at) ==>
              Lookup(AddPeer(s, ring, peer, lbl, expiresAt, at).0.rings[ring], peer)
                  == Some(Member(peer, lbl, expiresAt))
  {
    var ms := s.rings[ring];
    assert GoodRing(s, ring);
    LookupWithoutPeer(ms, peer, peer);
    LookupEnrolled(WithoutPeer(ms, peer), peer, lbl, expiresAt, at, peer);
    LookupEnrolled(ms, peer, lbl, expiresAt, at, peer);
    LiveMemberIsLookup(ms, peer, at);
    LookupFinds(ms, peer);
  }

  /** Associating a ring replaces that ring's permissions and keeps every other association, in order, everywhere. */
  lemma AssociationFrame(s: Registry, resource: Bytes, ring: Name, permissions: set<Permission>)
    requires WellFormed(s)
    requires AddRing(s, resource, ring, permissions).1.Ok?
    ensures var s' := AddRing(s, resource, ring, permissions).0;
      && s'.rings == s.rings
      && (forall r :: r != resource ==> EntriesOf(s'.resources, r) == EntriesOf(s.resources, r))
      && (forall a :: a in EntriesOf(s'.resources, resource) <==>
            a == Entry(ring, permissions) || (a in EntriesOf(s.resources, resource) && a.ring != ring))
      && (forall i :: 0 <= i < |EntriesOf(s.resources, resource)| ==>
            EntriesOf(s'.resources, resource)[i].ring == EntriesOf(s.resources, resource)[i].ring)
  {
    assert GoodResource(s, resource);
    AssociateElements(EntriesOf(s.resources, resource), ring, permissions);
  }
}
