/**
 Lazy expiry against explicit eviction. `evict_expired` is documented to have no effect on
 access decisions; this module proves when that is so, and what evicting does to what later
 operations see.
 */
module Eviction {
  import opened Types
  import opened Ring
  import opened RegistrySpec
  import opened RegistryInvariants

  // ---------------------------------------------------------------- one eviction

  lemma {:induction false} UnexpiredTwice(ms: seq<Member>, t: Time, now: Time)
    ensures Unexpired(Unexpired(ms, t), now) == Unexpired(ms, Later(t, now))
  {
    if ms != [] {
      UnexpiredTwice(ms[1..], t, now);
      if !Expired(ms[0], t) {
        assert ([ms[0]] + Unexpired(ms[1..], t))[1..] == Unexpired(ms[1..], t);
      }
    }
  }

  /**
   The exact effect of an eviction at `t` on every decision and every listing, for any clock
   reading: they answer as if the clock stood no earlier than `t`. So an observer at or after
   `t` sees no difference at all.
   */
  lemma EvictedStateAnswersFrom(
    s: Registry, t: Time, peer: Peer, resource: Bytes, permission: Permission, ring: Name, now: Time)
    ensures HasPermission(Evict(s, t), peer, resource, permission, now)
            == HasPermission(s, peer, resource, permission, Later(t, now))
    ensures ListRingPeers(Evict(s, t), ring, now) == ListRingPeers(s, ring, Later(t, now))
  {
    forall a | a in EntriesOf(s.resources, resource)
      ensures Grants(Evict(s, t), a, peer, permission, now) == Grants(s, a, peer, permission, Later(t, now))
    {
      if a.ring in s.rings {
        UnexpiredElements(s.rings[a.ring], t);
        assert forall m: Member :: !Expired(m, Later(t, now)) <==> !Expired(m, t) && !Expired(m, now);
      }
    }
    if ring in s.rings {
      UnexpiredTwice(s.rings[ring], t, now);
    }
  }

  /** A registry in which evicting at 10 changes a decision taken with the clock at 5. */
  lemma EvictionShowsToEarlierClocks(peer: Peer, resource: Bytes)
    ensures var s := Registry(
        map[OPEN_RING_NAME := [], [114] := [Member(peer, None, Some(10))]],
        map[resource := [Entry([114], {Read})]]);
      WellFormed(s) && HasPermission(s, peer, resource, Read, 5)
          && !HasPermission(Evict(s, 10), peer, resource, Read, 5)
  {
    var m := Member(peer, None, Some(10));
    var s := Registry(
      map[OPEN_RING_NAME := [], [114] := [m]],
      map[resource := [Entry([114], {Read})]]);
    InitialIsWellFormed();
    forall ring
      ensures GoodRing(s, ring)
    {
      assert GoodRing(INITIAL, ring);
      assert ring == [114] ==> !WhitespaceAt(ring, 0);
    }
    forall r
      ensures GoodResource(s, r)
    {
    }
    assert m in s.rings[[114]] && !Expired(m, 5);
    assert Grants(s, s.resources[resource][0], peer, Read, 5);
    EvictedStateAnswersFrom(s, 10, peer, resource, Read, [114], 5);
  }

  /** `Unexpired` drops something exactly when something in the list has expired. */
  lemma {:induction false} UnexpiredLength(ms: seq<Member>, now: Time)
    ensures |Unexpired(ms, now)| <= |ms|
    ensures (forall m :: m in ms ==> !Expired(m, now)) ==> Unexpired(ms, now) == ms
  {
    if ms != [] {
      UnexpiredLength(ms[1..], now);
      assert ms == [ms[0]] + ms[1..];
    }
  }

  /** No membership of `ring` expires after `now` and at or before `t`. */
  ghost predicate NoneExpiresBetween(s: Registry, ring: Name, now: Time, t: Time) {
    ring in s.rings ==> forall m :: m in s.rings[ring] && Expired(m, t) ==> Expired(m, now)
  }

  ghost predicate SameListing(s: Registry, s': Registry, ring: Name, now: Time) {
    ListRingPeers(s', ring, now) == ListRingPeers(s, ring, now)
  }

  /**
   An eviction at `t` keeps the listing of a ring exactly when the clock is not before it, or no membership
   expires in between.
   */
  lemma EvictionKeepsListingIff(s: Registry, t: Time, ring: Name, now: Time)
    ensures SameListing(s, Evict(s, t), ring, now) <==> now >= t || NoneExpiresBetween(s, ring, now, t)
  {
    EvictedStateAnswersFrom(s, t, seq(32, _ => 0), [], Read, ring, now);
    if now < t && ring in s.rings {
      var ms := s.rings[ring];
      UnexpiredElements(ms, now);
      UnexpiredElements(ms, t);
      if NoneExpiresBetween(s, ring, now, t) {
        UnexpiredTwice(ms, now, t);
        UnexpiredLength(Unexpired(ms, now), t);
      } else {
        var m :| m in ms && Expired(m, t) && !Expired(m, now);
        assert m in Unexpired(ms, now) && m !in Unexpired(ms, t);
      }
    }
  }

  /** And of every ring. */
  lemma EvictionKeepsListingsIff(s: Registry, t: Time, now: Time)
    ensures (forall ring :: SameListing(s, Evict(s, t), ring, now))
            <==> now >= t || forall ring :: NoneExpiresBetween(s, ring, now, t)
  {
    forall ring
      ensures SameListing(s, Evict(s, t), ring, now) <==> now >= t || NoneExpiresBetween(s, ring, now, t)
    {
      EvictionKeepsListingIff(s, t, ring, now);
    }
  }

  /**
   An association gives the peer the permission whatever is evicted at `t`: through the open ring, or a
   membership that outlasts `t`.
   */
  ghost predicate Outlasts(s: Registry, a: Association, peer: Peer, permission: Permission, t: Time) {
    && permission in a.permissions
    && (IsOpen(a.ring)
        || (a.ring in s.rings
            && exists m: Member :: m in s.rings[a.ring] && m.peer == peer
                && (m.expiresAt.None? || t < m.expiresAt.value)))
  }

  ghost predicate HasLastingAccess(s: Registry, peer: Peer, resource: Bytes, permission: Permission, t: Time) {
    exists a :: a in EntriesOf(s.resources, resource) && Outlasts(s, a, peer, permission, t)
  }

  lemma LastingAccessIsPermission(s: Registry, peer: Peer, resource: Bytes, permission: Permission, t: Time)
    ensures HasLastingAccess(s, peer, resource, permission, t) <==> HasPermission(s, peer, resource, permission, t)
  {
    forall a | a in EntriesOf(s.resources, resource)
      ensures Outlasts(s, a, peer, permission, t) <==> Grants(s, a, peer, permission, t)
    {
      if a.ring in s.rings {
        assert forall m: Member :: m in s.rings[a.ring] ==>
                 (Expired(m, t) <==> !(m.expiresAt.None? || t < m.expiresAt.value));
      }
    }
  }

  ghost predicate SameDecision(
    s: Registry, s': Registry, peer: Peer, resource: Bytes, permission: Permission, now: Time)
  {
    HasPermission(s', peer, resource, permission, now) == HasPermission(s, peer, resource, permission, now)
  }

  /** Earlier clocks see at least the access that later clocks see. */
  lemma AccessOnlyLapses(s: Registry, peer: Peer, resource: Bytes, permission: Permission, now: Time, t: Time)
    requires now <= t && HasPermission(s, peer, resource, permission, t)
    ensures HasPermission(s, peer, resource, permission, now)
  {
    var a :| a in EntriesOf(s.resources, resource) && Grants(s, a, peer, permission, t);
    assert Grants(s, a, peer, permission, now);
  }

  /**
   Exactly when an eviction at `t` keeps a decision at clock reading `now`: the clock is not before the
   eviction, or the peer had no access, or it has access that outlasts `t`.
   */
  lemma EvictionKeepsDecisionIff(s: Registry, t: Time, peer: Peer, resource: Bytes, permission: Permission, now: Time)
    ensures SameDecision(s, Evict(s, t), peer, resource, permission, now) <==>
            || now >= t
            || !HasPermission(s, peer, resource, permission, now)
            || HasLastingAccess(s, peer, resource, permission, t)
  {
    EvictedStateAnswersFrom(s, t, peer, resource, permission, OPEN_RING_NAME, now);
    LastingAccessIsPermission(s, peer, resource, permission, t);
    if now < t && HasPermission(s, peer, resource, permission, t) {
      AccessOnlyLapses(s, peer, resource, permission, now, t);
    }
  }

  /**
   A private association that gives `m.peer` the permission through a membership that expires after `now` and
   at or before `t`.
   */
  ghost predicate Lapses(
    s: Registry, m: Member, a: Association, resource: Bytes, permission: Permission, now: Time, t: Time)
  {
    && a in EntriesOf(s.resources, resource) && permission in a.permissions
    && !IsOpen(a.ring) && a.ring in s.rings && m in s.rings[a.ring]
    && m.expiresAt.Some? && now < m.expiresAt.value <= t
  }

  /**
   An eviction at `t` keeps every decision at `now` exactly when the clock is not before it, or whatever
   access lapses in between is also had in a way that outlasts `t`.
   */
  lemma EvictionKeepsDecisionsIff(s: Registry, t: Time, now: Time)
    ensures (forall peer, resource, permission :: SameDecision(s, Evict(s, t), peer, resource, permission, now)) <==>
            || now >= t
            || (forall m: Member, a, resource, permission :: Lapses(s, m, a, resource, permission, now, t) ==>
                  HasLastingAccess(s, m.peer, resource, permission, t))
  {
    forall peer, resource, permission
      ensures SameDecision(s, Evict(s, t), peer, resource, permission, now) <==>
              || now >= t
              || !HasPermission(s, peer, resource, permission, now)
              || HasLastingAccess(s, peer, resource, permission, t)
    {
      EvictionKeepsDecisionIff(s, t, peer, resource, permission, now);
    }
    forall m: Member, a, resource, permission | Lapses(s, m, a, resource, permission, now, t)
      ensures HasPermission(s, m.peer, resource, permission, now)
    {
      assert Grants(s, a, m.peer, permission, now);
    }
    forall peer, resource, permission |
      now < t && HasPermission(s, peer, resource, permission, now)
          && !HasLastingAccess(s, peer, resource, permission, t)
      ensures exists m: Member, a :: m.peer == peer && Lapses(s, m, a, resource, permission, now, t)
    {
      LapsedAccess(s, peer, resource, permission, now, t);
    }
  }

  lemma LapsedAccess(s: Registry, peer: Peer, resource: Bytes, permission: Permission, now: Time, t: Time)
    requires now < t && HasPermission(s, peer, resource, permission, now)
    requires !HasLastingAccess(s, peer, resource, permission, t)
    ensures exists m: Member, a :: m.peer == peer && Lapses(s, m, a, resource, permission, now, t)
  {
    var a :| a in EntriesOf(s.resources, resource) && Grants(s, a, peer, permission, now);
    assert !Outlasts(s, a, peer, permission, t);
    var m :| m in s.rings[a.ring] && m.peer == peer && !Expired(m, now);
    assert Lapses(s, m, a, resource, permission, now, t);
  }

  // ---------------------------------------------------------------- evictions compose

  /** Every membership there is, expired or not. */
  function Memberships(s: Registry): set<(Name, Peer)> {
    set ring, m | ring in s.rings && m in s.rings[ring] :: (ring, m.peer)
  }

  lemma MembershipHasOneRecord(s: Registry, ring: Name, m: Member, m': Member)
    requires WellFormed(s) && ring in s.rings
    requires m in s.rings[ring] && m' in s.rings[ring] && m.peer == m'.peer
    ensures m == m'
  {
    assert GoodRing(s, ring);
    LookupFinds(s.rings[ring], m.peer);
  }

  lemma MembershipsAfterEvict(s: Registry, t: Time)
    ensures Memberships(Evict(s, t))
            == set ring, m | ring in s.rings && m in s.rings[ring] && !Expired(m, t) :: (ring, m.peer)
  {
    forall ring, m | ring in s.rings
      ensures m in Evict(s, t).rings[ring] <==> m in s.rings[ring] && !Expired(m, t)
    {
      UnexpiredElements(s.rings[ring], t);
    }
  }

  /** An eviction removes exactly the memberships it returns. */
  lemma EvictionConserves(s: Registry, t: Time)
    requires WellFormed(s)
    ensures Memberships(Evict(s, t)) + Evicted(s, t) == Memberships(s)
    ensures Memberships(Evict(s, t)) !! Evicted(s, t)
  {
    MembershipsAfterEvict(s, t);
    forall ring, m, m' | ring in s.rings && m in s.rings[ring] && m' in s.rings[ring]
                         && m.peer == m'.peer && Expired(m, t)
      ensures Expired(m', t)
    {
      MembershipHasOneRecord(s, ring, m, m');
    }
    forall k | k in Memberships(s)
      ensures k in Memberships(Evict(s, t)) + Evicted(s, t)
    {
      var m :| k.0 in s.rings && m in s.rings[k.0] && k == (k.0, m.peer);
      assert Expired(m, t) || !Expired(m, t);
    }
  }

  lemma EvictedSplits(s: Registry, t1: Time, t2: Time)
    ensures Evicted(s, t1) + Evicted(Evict(s, t1), t2) == Evicted(s, Later(t1, t2))
  {
    forall ring, m | ring in s.rings
      ensures m in Evict(s, t1).rings[ring] <==> m in s.rings[ring] && !Expired(m, t1)
    {
      UnexpiredElements(s.rings[ring], t1);
    }
    forall k | k in Evicted(s, Later(t1, t2))
      ensures k in Evicted(s, t1) + Evicted(Evict(s, t1), t2)
    {
      var m :| k.0 in s.rings && m in s.rings[k.0] && Expired(m, Later(t1, t2)) && k == (k.0, m.peer);
      assert Expired(m, t1) || (m in Evict(s, t1).rings[k.0] && Expired(m, t2));
    }
  }

  /**
   Evicting at `t1` and then at `t2` leaves what one eviction at the later of the two leaves, and
   the two results split the single one between them.
   */
  lemma EvictionsCompose(s: Registry, t1: Time, t2: Time)
    requires WellFormed(s)
    ensures Evict(Evict(s, t1), t2) == Evict(s, Later(t1, t2))
    ensures Evicted(s, t1) + Evicted(Evict(s, t1), t2) == Evicted(s, Later(t1, t2))
    ensures Evicted(s, t1) !! Evicted(Evict(s, t1), t2)
  {
    forall ring | ring in s.rings
      ensures Unexpired(Unexpired(s.rings[ring], t1), t2) == Unexpired(s.rings[ring], Later(t1, t2))
    {
      UnexpiredTwice(s.rings[ring], t1, t2);
    }
    EvictionConserves(s, t1);
    assert Evicted(Evict(s, t1), t2) <= Memberships(Evict(s, t1));
    EvictedSplits(s, t1, t2);
  }

  // ---------------------------------------------------------------- whole runs

  /** The two registries differ at most in memberships that have expired by `t`, and in the order of members. */
  ghost predicate SameFrom(s: Registry, s': Registry, t: Time) {
    && WellFormed(s) && WellFormed(s')
    && s'.resources == s.resources
    && s'.rings.Keys == s.rings.Keys
    && forall ring, peer: Peer :: ring in s.rings ==>
         LiveRecord(s'.rings[ring], peer, t) == LiveRecord(s.rings[ring], peer, t)
  }

  predicate ClockAtLeast(op: Operation, t: Time) {
    match op
    case AddPeerOp(_, _, _, _, now) => now >= t
    case ListRingPeersOp(_, now) => now >= t
    case HasPermissionOp(_, _, _, now) => now >= t
    case EvictOp(now) => now >= t
    case _ => true
  }

  /** Same answers; listings up to the order of members; the result of an eviction may differ. */
  ghost predicate SameAnswer(r: Response, r': Response) {
    match (r, r')
    case (Members(Ok(ms)), Members(Ok(ms'))) => multiset(ms) == multiset(ms')
    case (EvictedMemberships(_), EvictedMemberships(_)) => true
    case _ => r == r'
  }

  lemma EvictedStateIsSameFrom(s: Registry, t: Time)
    requires WellFormed(s)
    ensures SameFrom(s, Evict(s, t), t)
  {
    EvictKeepsWellFormed(s, t);
    forall ring, peer: Peer | ring in s.rings
      ensures LiveRecord(Evict(s, t).rings[ring], peer, t) == LiveRecord(s.rings[ring], peer, t)
    {
      assert GoodRing(s, ring);
      LookupUnexpired(s.rings[ring], t, peer);
    }
  }

  lemma {:induction false} DistinctMultiset(ms: seq<Member>, m: Member)
    requires DistinctPeers(ms)
    ensures multiset(ms)[m] == if m in ms then 1 else 0
  {
    if ms != [] {
      DistinctMultiset(ms[1..], m);
      assert ms == [ms[0]] + ms[1..];
    }
  }

  /** How often a member is listed: once if that is its record and it has not expired. */
  lemma ListedOnce(ms: seq<Member>, now: Time, m: Member)
    requires DistinctPeers(ms)
    ensures multiset(Unexpired(ms, now))[m] == if LiveRecord(ms, m.peer, now) == Some(m) then 1 else 0
  {
    UnexpiredKeepsDistinct(ms, now);
    UnexpiredElements(ms, now);
    LookupFinds(ms, m.peer);
    DistinctMultiset(Unexpired(ms, now), m);
  }

  lemma SameLater(ms: seq<Member>, ms': seq<Member>, t: Time, now: Time, peer: Peer)
    requires LiveRecord(ms', peer, t) == LiveRecord(ms, peer, t)
    requires now >= t
    ensures LiveRecord(ms', peer, now) == LiveRecord(ms, peer, now)
  {
  }

  lemma SameMultiset(ms: seq<Member>, ms': seq<Member>, t: Time, now: Time)
    requires DistinctPeers(ms) && DistinctPeers(ms')
    requires forall peer: Peer :: LiveRecord(ms', peer, t) == LiveRecord(ms, peer, t)
    requires now >= t
    ensures multiset(Unexpired(ms', now)) == multiset(Unexpired(ms, now))
  {
    forall m: Member
      ensures multiset(Unexpired(ms', now))[m] == multiset(Unexpired(ms, now))[m]
    {
      SameLater(ms, ms', t, now, m.peer);
      ListedOnce(ms, now, m);
      ListedOnce(ms', now, m);
    }
  }

  /** One ring of two such registries, after the same update. */
  lemma SameRecordAfterUpdate(
    ms: seq<Member>, ms': seq<Member>, peer: Peer, lbl: Option<Label>, expiresAt: Option<Time>, now: Time, t: Time,
    q: Peer)
    requires DistinctPeers(ms) && DistinctPeers(ms') && now >= t
    requires forall p: Peer :: LiveRecord(ms', p, t) == LiveRecord(ms, p, t)
    ensures LiveRecord(Enrolled(ms', peer, lbl, expiresAt, now), q, t)
            == LiveRecord(Enrolled(ms, peer, lbl, expiresAt, now), q, t)
    ensures LiveRecord(WithoutPeer(ms', peer), q, t) == LiveRecord(WithoutPeer(ms, peer), q, t)
    ensures LiveRecord(Unexpired(ms', now), q, t) == LiveRecord(Unexpired(ms, now), q, t)
  {
    LookupEnrolled(ms, peer, lbl, expiresAt, now, q);
    LookupEnrolled(ms', peer, lbl, expiresAt, now, q);
    LookupWithoutPeer(ms, peer, q);
    LookupWithoutPeer(ms', peer, q);
    LookupUnexpired(ms, now, q);
    LookupUnexpired(ms', now, q);
    LookupFinds(ms, peer);
    LookupFinds(ms', peer);
    assert LiveRecord(ms', q, t) == LiveRecord(ms, q, t);
    assert LiveRecord(ms', peer, t) == LiveRecord(ms, peer, t);
  }

  lemma SameFromRing(s: Registry, s': Registry, t: Time, ring: Name)
    requires SameFrom(s, s', t) && ring in s.rings
    ensures DistinctPeers(s.rings[ring]) && DistinctPeers(s'.rings[ring])
    ensures forall p: Peer :: LiveRecord(s'.rings[ring], p, t) == LiveRecord(s.rings[ring], p, t)
  {
    assert GoodRing(s, ring) && GoodRing(s', ring);
  }

  ghost predicate SameRecords(s: Registry, s': Registry, t: Time) {
    forall ring, peer: Peer :: ring in s.rings && ring in s'.rings ==>
      LiveRecord(s'.rings[ring], peer, t) == LiveRecord(s.rings[ring], peer, t)
  }

  lemma SameRecordsAfterUpdate(s: Registry, s': Registry, t: Time, op: Operation)
    requires SameFrom(s, s', t) && ClockAtLeast(op, t)
    requires op.AddPeerOp? || op.RemovePeerOp? || op.EvictOp?
    ensures SameRecords(Step(s, op).0, Step(s', op).0, t)
  {
    var s1, s1' := Step(s, op).0, Step(s', op).0;
    forall ring, q: Peer | ring in s1.rings && ring in s1'.rings
      ensures LiveRecord(s1'.rings[ring], q, t) == LiveRecord(s1.rings[ring], q, t)
    {
      SameFromRing(s, s', t, ring);
      match op
      case AddPeerOp(_, peer, lbl, expiresAt, now) =>
        SameRecordAfterUpdate(s.rings[ring], s'.rings[ring], peer, lbl, expiresAt, now, t, q);
      case RemovePeerOp(_, peer) =>
        SameRecordAfterUpdate(s.rings[ring], s'.rings[ring], peer, None, None, t, t, q);
      case EvictOp(now) =>
        SameRecordAfterUpdate(s.rings[ring], s'.rings[ring], q, None, None, now, t, q);
    }
  }

  lemma SameRecordsAfterStep(s: Registry, s': Registry, t: Time, op: Operation)
    requires SameFrom(s, s', t) && ClockAtLeast(op, t)
    ensures SameRecords(Step(s, op).0, Step(s', op).0, t)
  {
    if op.AddPeerOp? || op.RemovePeerOp? || op.EvictOp? {
      SameRecordsAfterUpdate(s, s', t, op);
    }
  }

  /** Operations do the same to the names of rings and to associations, whoever the members are. */
  lemma SameShapeAfterStep(s: Registry, s': Registry, op: Operation)
    requires s'.resources == s.resources && s'.rings.Keys == s.rings.Keys
    ensures Step(s', op).0.resources == Step(s, op).0.resources
    ensures Step(s', op).0.rings.Keys == Step(s, op).0.rings.Keys
  {
  }

  lemma SameStateAfterStep(s: Registry, s': Registry, t: Time, op: Operation)
    requires SameFrom(s, s', t) && ClockAtLeast(op, t)
    ensures SameFrom(Step(s, op).0, Step(s', op).0, t)
  {
    StepKeepsWellFormed(s, op);
    StepKeepsWellFormed(s', op);
    SameShapeAfterStep(s, s', op);
    SameRecordsAfterStep(s, s', t, op);
  }

  lemma SameAnswerFromStep(s: Registry, s': Registry, t: Time, op: Operation)
    requires SameFrom(s, s', t) && ClockAtLeast(op, t)
    ensures SameAnswer(Step(s, op).1, Step(s', op).1)
  {
    match op
    case ListRingPeersOp(ring, now) =>
      if ring in s.rings {
        SameFromRing(s, s', t, ring);
        SameMultiset(s.rings[ring], s'.rings[ring], t, now);
      }
    case HasPermissionOp(peer, resource, permission, now) =>
      forall ring | ring in s.rings
        ensures LiveMember(s'.rings[ring], peer, now) == LiveMember(s.rings[ring], peer, now)
      {
        SameFromRing(s, s', t, ring);
        SameLater(s.rings[ring], s'.rings[ring], t, now, peer);
        LiveMemberIsLookup(s.rings[ring], peer, now);
        LiveMemberIsLookup(s'.rings[ring], peer, now);
      }
      DecisionDependsOnRings(s, s', peer, resource, permission, now);
    case _ =>
  }

  lemma RunUnfolds(s: Registry, ops: seq<Operation>)
    requires ops != []
    ensures Run(s, ops).1 == [Step(s, ops[0]).1] + Run(Step(s, ops[0]).0, ops[1..]).1
  {
  }

  lemma {:induction false} SameAnswersFromRun(s: Registry, s': Registry, t: Time, ops: seq<Operation>)
    requires SameFrom(s, s', t)
    requires forall op :: op in ops ==> ClockAtLeast(op, t)
    ensures |Run(s, ops).1| == |Run(s', ops).1| == |ops|
    ensures forall i :: 0 <= i < |ops| ==> SameAnswer(Run(s, ops).1[i], Run(s', ops).1[i])
    decreases |ops|
  {
    if ops != [] {
      SameStateAfterStep(s, s', t, ops[0]);
      SameAnswerFromStep(s, s', t, ops[0]);
      var s1, s1' := Step(s, ops[0]).0, Step(s', ops[0]).0;
      assert SameFrom(s1, s1', t);
      SameAnswersFromRun(s1, s1', t, ops[1..]);
      RunUnfolds(s, ops);
      RunUnfolds(s', ops);
    }
  }

  /**
   Eviction at `t` is unobservable to whatever runs afterwards with its clock at or after `t`: the
   same decisions, the same errors, the same associations, and the same members of every ring up to
   order, from any registry a run can reach.
   */
  lemma EvictionIsUnobservableFrom(start: Registry, before: seq<Operation>, t: Time, after: seq<Operation>)
    requires WellFormed(start)
    requires forall op :: op in after ==> ClockAtLeast(op, t)
    ensures var s := Run(start, before).0;
      var answers, answers' := Run(s, after).1, Run(Evict(s, t), after).1;
      && |answers| == |answers'| == |after|
      && forall i :: 0 <= i < |after| ==> SameAnswer(answers[i], answers'[i])
  {
    RunKeepsWellFormed(start, before);
    var s := Run(start, before).0;
    EvictedStateIsSameFrom(s, t);
    SameAnswersFromRun(s, Evict(s, t), t, after);
  }

  // ---------------------------------------------------------------- what later evictions return

  /** The member records of one ring agree, except that the second may lack an expired membership, one of `gone`. */
  ghost predicate LacksOnly(
    r: Option<Member>, r': Option<Member>, k: (Name, Peer), gone: set<(Name, Peer)>, t: Time)
  {
    r' == r || (r' == None && r.Some? && Expired(r.value, t) && k in gone)
  }

  ghost predicate LacksAt(s: Registry, s': Registry, gone: set<(Name, Peer)>, t: Time, ring: Name, peer: Peer) {
    ring in s.rings && ring in s'.rings ==>
      LacksOnly(Lookup(s.rings[ring], peer), Lookup(s'.rings[ring], peer), (ring, peer), gone, t)
  }

  /** `s'` is `s` without some memberships of `gone` that had expired at `t`. */
  ghost predicate SameBut(s: Registry, s': Registry, gone: set<(Name, Peer)>, t: Time) {
    && WellFormed(s) && WellFormed(s')
    && s'.resources == s.resources && s'.rings.Keys == s.rings.Keys
    && forall ring, peer: Peer :: LacksAt(s, s', gone, t, ring, peer)
  }

  lemma DistinctInRing(s: Registry, ring: Name)
    requires WellFormed(s) && ring in s.rings
    ensures DistinctPeers(s.rings[ring])
  {
    assert GoodRing(s, ring);
  }

  lemma MissingWasEvicted(s: Registry, t: Time, ring: Name, peer: Peer)
    requires WellFormed(s)
    ensures LacksAt(s, Evict(s, t), Evicted(s, t), t, ring, peer)
  {
    if ring in s.rings {
      DistinctInRing(s, ring);
      LookupUnexpired(s.rings[ring], t, peer);
      LookupFinds(s.rings[ring], peer);
    }
  }

  lemma EvictedStateIsSameBut(s: Registry, t: Time)
    requires WellFormed(s)
    ensures SameBut(s, Evict(s, t), Evicted(s, t), t)
  {
    EvictKeepsWellFormed(s, t);
    forall ring, peer: Peer
      ensures LacksAt(s, Evict(s, t), Evicted(s, t), t, ring, peer)
    {
      MissingWasEvicted(s, t, ring, peer);
    }
  }

  lemma LacksOnlyAfterAdd(
    ms: seq<Member>, ms': seq<Member>, peer: Peer, lbl: Option<Label>, expiresAt: Option<Time>, now: Time,
    q: Peer, ring: Name, gone: set<(Name, Peer)>, t: Time)
    requires DistinctPeers(ms) && DistinctPeers(ms') && now >= t
    requires LacksOnly(Lookup(ms, q), Lookup(ms', q), (ring, q), gone, t)
    ensures LacksOnly(Lookup(Enrolled(ms, peer, lbl, expiresAt, now), q),
                      Lookup(Enrolled(ms', peer, lbl, expiresAt, now), q), (ring, q), gone, t)
  {
    LookupEnrolled(ms, peer, lbl, expiresAt, now, q);
    LookupEnrolled(ms', peer, lbl, expiresAt, now, q);
    LookupFinds(ms, peer);
  }

  lemma LacksOnlyAfterRemove(
    ms: seq<Member>, ms': seq<Member>, peer: Peer, q: Peer, ring: Name, gone: set<(Name, Peer)>, t: Time)
    requires DistinctPeers(ms) && DistinctPeers(ms')
    requires LacksOnly(Lookup(ms, q), Lookup(ms', q), (ring, q), gone, t)
    ensures LacksOnly(Lookup(WithoutPeer(ms, peer), q), Lookup(WithoutPeer(ms', peer), q), (ring, q), gone, t)
  {
    LookupWithoutPeer(ms, peer, q);
    LookupWithoutPeer(ms', peer, q);
  }

  lemma LacksOnlyAfterEvict(
    ms: seq<Member>, ms': seq<Member>, now: Time, q: Peer, ring: Name, gone: set<(Name, Peer)>, t: Time)
    requires DistinctPeers(ms) && DistinctPeers(ms') && now >= t
    requires LacksOnly(Lookup(ms, q), Lookup(ms', q), (ring, q), gone, t)
    ensures LacksOnly(Lookup(Unexpired(ms, now), q), Lookup(Unexpired(ms', now), q), (ring, q), gone, t)
  {
    LookupUnexpired(ms, now, q);
    LookupUnexpired(ms', now, q);
  }

  lemma StillLacksOnly(
    s: Registry, s': Registry, gone: set<(Name, Peer)>, t: Time, op: Operation, ring: Name, q: Peer)
    requires SameBut(s, s', gone, t) && ClockAtLeast(op, t)
    ensures LacksAt(Step(s, op).0, Step(s', op).0, gone, t, ring, q)
  {
    if ring in s.rings {
      assert LacksAt(s, s', gone, t, ring, q);
      DistinctInRing(s, ring);
      DistinctInRing(s', ring);
      var ms, ms' := s.rings[ring], s'.rings[ring];
      match op
      case AddPeerOp(_, peer, lbl, expiresAt, now) =>
        LacksOnlyAfterAdd(ms, ms', peer, lbl, expiresAt, now, q, ring, gone, t);
      case RemovePeerOp(_, peer) =>
        LacksOnlyAfterRemove(ms, ms', peer, q, ring, gone, t);
      case EvictOp(now) =>
        LacksOnlyAfterEvict(ms, ms', now, q, ring, gone, t);
      case _ =>
    }
  }

  lemma SameButAfterStep(s: Registry, s': Registry, gone: set<(Name, Peer)>, t: Time, op: Operation)
    requires SameBut(s, s', gone, t) && ClockAtLeast(op, t)
    ensures SameBut(Step(s, op).0, Step(s', op).0, gone, t)
  {
    StepKeepsWellFormed(s, op);
    StepKeepsWellFormed(s', op);
    SameShapeAfterStep(s, s', op);
    forall ring, q: Peer
      ensures LacksAt(Step(s, op).0, Step(s', op).0, gone, t, ring, q)
    {
      StillLacksOnly(s, s', gone, t, op, ring, q);
    }
  }

  lemma EvictedByLookup(s: Registry, ring: Name, peer: Peer, now: Time)
    requires WellFormed(s) && ring in s.rings
    ensures (ring, peer) in Evicted(s, now) <==>
            Lookup(s.rings[ring], peer).Some? && Expired(Lookup(s.rings[ring], peer).value, now)
  {
    DistinctInRing(s, ring);
    LookupFinds(s.rings[ring], peer);
  }

  /** A later eviction returns exactly what it would have, less memberships that are gone. */
  lemma LaterEvictionReturns(s: Registry, s': Registry, gone: set<(Name, Peer)>, t: Time, now: Time)
    requires SameBut(s, s', gone, t) && now >= t
    ensures Evicted(s', now) <= Evicted(s, now) && Evicted(s, now) - Evicted(s', now) <= gone
  {
    forall ring, peer: Peer | ring in s.rings
      ensures (ring, peer) in Evicted(s', now) ==> (ring, peer) in Evicted(s, now)
      ensures (ring, peer) in Evicted(s, now) && (ring, peer) !in Evicted(s', now) ==> (ring, peer) in gone
    {
      assert LacksAt(s, s', gone, t, ring, peer);
      EvictedByLookup(s, ring, peer, now);
      EvictedByLookup(s', ring, peer, now);
    }
  }

  /** The second answer, if of an eviction, is the first without memberships of `gone`. */
  ghost predicate ReturnsLess(r: Response, r': Response, gone: set<(Name, Peer)>) {
    r.EvictedMemberships? && r'.EvictedMemberships? ==>
      r'.evicted <= r.evicted && r.evicted - r'.evicted <= gone
  }

  lemma StepReturnsLess(s: Registry, s': Registry, gone: set<(Name, Peer)>, t: Time, op: Operation)
    requires SameBut(s, s', gone, t) && ClockAtLeast(op, t)
    ensures ReturnsLess(Step(s, op).1, Step(s', op).1, gone)
  {
    if op.EvictOp? {
      LaterEvictionReturns(s, s', gone, t, op.now);
    }
  }

  lemma {:induction false} ReturnsLessOverRun(
    s: Registry, s': Registry, gone: set<(Name, Peer)>, t: Time, ops: seq<Operation>)
    requires SameBut(s, s', gone, t) && forall op :: op in ops ==> ClockAtLeast(op, t)
    ensures |Run(s, ops).1| == |Run(s', ops).1| == |ops|
    ensures forall i :: 0 <= i < |ops| ==> ReturnsLess(Run(s, ops).1[i], Run(s', ops).1[i], gone)
    decreases |ops|
  {
    if ops != [] {
      var op := ops[0];
      SameButAfterStep(s, s', gone, t, op);
      ReturnsLessOverRun(Step(s, op).0, Step(s', op).0, gone, t, ops[1..]);
      RunUnfolds(s, ops);
      RunUnfolds(s', ops);
      StepReturnsLess(s, s', gone, t, op);
    }
  }

  /**
   What a later eviction returns after an eviction at `t` is part of what it would have returned, and what it
   no longer returns is part of what that eviction returned.
   */
  lemma LaterEvictionsReturnLess(start: Registry, before: seq<Operation>, t: Time, after: seq<Operation>)
    requires WellFormed(start)
    requires forall op :: op in after ==> ClockAtLeast(op, t)
    ensures var s := Run(start, before).0;
      var answers, answers' := Run(s, after).1, Run(Evict(s, t), after).1;
      && |answers| == |answers'| == |after|
      && forall i :: 0 <= i < |after| ==> ReturnsLess(answers[i], answers'[i], Evicted(s, t))
  {
    RunKeepsWellFormed(start, before);
    var s := Run(start, before).0;
    EvictedStateIsSameBut(s, t);
    ReturnsLessOverRun(s, Evict(s, t), Evicted(s, t), t, after);
  }
}
