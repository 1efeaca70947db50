/**
 What the clamp of redb's stored expiries shows. redb moves an expiry before the epoch to the epoch, so
 over the same operations the two backends hold registries related by `Clamped`; this module proves
 exactly which operations can tell, with which clock.
 */
module Clamping {
  import opened Types
  import opened Ring
  import opened RegistrySpec
  import opened Eviction
  import opened RedbCodec

  const EPOCH: Time := 0

  function ClampedMember(m: Member): Member {
    m.(expiresAt := ClampOption(m.expiresAt))
  }

  function ClampedMembers(ms: seq<Member>): (r: seq<Member>)
    ensures |r| == |ms|
  {
    if ms == [] then [] else [ClampedMember(ms[0])] + ClampedMembers(ms[1..])
  }

  /** `s` with every expiry before the epoch moved to the epoch. */
  function Clamped(s: Registry): Registry {
    s.(rings := map ring | ring in s.rings :: ClampedMembers(s.rings[ring]))
  }

  function ClampedOp(op: Operation): Operation {
    match op
    case AddPeerOp(ring, peer, lbl, expiresAt, now) => AddPeerOp(ring, peer, lbl, ClampOption(expiresAt), now)
    case _ => op
  }

  // ---------------------------------------------------------------- clamping commutes with every operation

  lemma {:induction false} ClampedIndex(ms: seq<Member>, i: nat)
    ensures i < |ms| ==> ClampedMembers(ms)[i] == ClampedMember(ms[i])
  {
    if ms != [] {
      ClampedIndex(ms[1..], if i > 0 then i - 1 else 0);
    }
  }

  lemma ClampExpires(m: Member, now: Time)
    requires now >= EPOCH
    ensures Expired(ClampedMember(m), now) == Expired(m, now)
    ensures !Expired(m, now) ==> ClampedMember(m) == m
  {
  }

  lemma {:induction false} ClampUnexpired(ms: seq<Member>, now: Time)
    requires now >= EPOCH
    ensures Unexpired(ClampedMembers(ms), now) == Unexpired(ms, now)
    ensures ClampedMembers(Unexpired(ms, now)) == Unexpired(ms, now)
  {
    if ms != [] {
      ClampUnexpired(ms[1..], now);
      ClampExpires(ms[0], now);
      assert ClampedMembers(ms)[1..] == ClampedMembers(ms[1..]);
    }
  }

  lemma {:induction false} ClampWithoutPeer(ms: seq<Member>, peer: Peer)
    ensures WithoutPeer(ClampedMembers(ms), peer) == ClampedMembers(WithoutPeer(ms, peer))
  {
    if ms != [] {
      ClampWithoutPeer(ms[1..], peer);
      assert ClampedMembers(ms)[1..] == ClampedMembers(ms[1..]);
    }
  }

  lemma {:induction false} ClampFindPeer(ms: seq<Member>, peer: Peer)
    ensures FindPeer(ClampedMembers(ms), peer) == FindPeer(ms, peer)
  {
    if ms != [] {
      ClampFindPeer(ms[1..], peer);
      assert ClampedMembers(ms)[1..] == ClampedMembers(ms[1..]);
    }
  }

  lemma {:induction false} ClampLiveMember(ms: seq<Member>, peer: Peer, now: Time)
    requires now >= EPOCH
    ensures LiveMember(ClampedMembers(ms), peer, now) == LiveMember(ms, peer, now)
  {
    forall i | 0 <= i < |ms|
      ensures ClampedMembers(ms)[i] == ClampedMember(ms[i])
      ensures Expired(ClampedMember(ms[i]), now) == Expired(ms[i], now)
    {
      ClampedIndex(ms, i);
      ClampExpires(ms[i], now);
    }
    if LiveMember(ms, peer, now) {
      var i :| 0 <= i < |ms| && ms[i].peer == peer && !Expired(ms[i], now);
      assert ClampedMembers(ms)[i] in ClampedMembers(ms);
    }
    if LiveMember(ClampedMembers(ms), peer, now) {
      var i :| 0 <= i < |ms| && ClampedMembers(ms)[i].peer == peer && !Expired(ClampedMembers(ms)[i], now);
      assert ms[i] in ms;
    }
  }

  function ExpiredPeers(ms: seq<Member>, now: Time): set<Peer> {
    set m | m in ms && Expired(m, now) :: m.peer
  }

  lemma {:induction false} ClampExpiredPeers(ms: seq<Member>, now: Time)
    requires now >= EPOCH
    ensures ExpiredPeers(ClampedMembers(ms), now) == ExpiredPeers(ms, now)
  {
    if ms != [] {
      ClampExpiredPeers(ms[1..], now);
      ClampExpires(ms[0], now);
      ExpiredPeersSplit(ms, now);
      ExpiredPeersSplit(ClampedMembers(ms), now);
      assert ClampedMembers(ms)[1..] == ClampedMembers(ms[1..]);
    }
  }

  lemma ExpiredPeersSplit(ms: seq<Member>, now: Time)
    requires ms != []
    ensures ExpiredPeers(ms, now) == (if Expired(ms[0], now) then {ms[0].peer} else {}) + ExpiredPeers(ms[1..], now)
  {
    assert forall m :: m in ms <==> m == ms[0] || m in ms[1..];
  }

  lemma ClampEvicted(s: Registry, now: Time)
    requires now >= EPOCH
    ensures Evicted(Clamped(s), now) == Evicted(s, now)
  {
    forall ring, peer: Peer | ring in s.rings
      ensures (ring, peer) in Evicted(Clamped(s), now) <==> (ring, peer) in Evicted(s, now)
    {
      ClampExpiredPeers(s.rings[ring], now);
      EvictedInRing(s, ring, peer, now);
      EvictedInRing(Clamped(s), ring, peer, now);
    }
  }

  lemma EvictedInRing(s: Registry, ring: Name, peer: Peer, now: Time)
    requires ring in s.rings
    ensures (ring, peer) in Evicted(s, now) <==> peer in ExpiredPeers(s.rings[ring], now)
  {
  }

  lemma ClampHasPermission(s: Registry, peer: Peer, resource: Bytes, permission: Permission, now: Time)
    requires now >= EPOCH
    ensures HasPermission(Clamped(s), peer, resource, permission, now)
            == HasPermission(s, peer, resource, permission, now)
  {
    forall a | a in EntriesOf(s.resources, resource)
      ensures Grants(Clamped(s), a, peer, permission, now) == Grants(s, a, peer, permission, now)
    {
      if a.ring in s.rings {
        ClampLiveMember(s.rings[a.ring], peer, now);
      }
    }
  }

  lemma ClampOneRing(s: Registry, ring: Name, ms: seq<Member>, ms': seq<Member>)
    requires ms' == ClampedMembers(ms)
    ensures Clamped(s.(rings := s.rings[ring := ms])) == Clamped(s).(rings := Clamped(s).rings[ring := ms'])
  {
    MapUpdated(Clamped(s).rings, Clamped(s.(rings := s.rings[ring := ms])).rings, ring, ms');
  }

  lemma ClampEvict(s: Registry, now: Time)
    requires now >= EPOCH
    ensures Evict(Clamped(s), now) == Clamped(Evict(s, now))
  {
    forall ring | ring in s.rings
      ensures Unexpired(ClampedMembers(s.rings[ring]), now) == ClampedMembers(Unexpired(s.rings[ring], now))
    {
      ClampUnexpired(s.rings[ring], now);
    }
  }

  // ---------------------------------------------------------------- clocks before the epoch

  /** To a clock before the epoch no clamped membership has expired. */
  lemma ClampedIsUnexpired(ms: seq<Member>, now: Time)
    requires now < EPOCH
    ensures Unexpired(ClampedMembers(ms), now) == ClampedMembers(ms)
    ensures forall m :: m in ClampedMembers(ms) ==> !Expired(m, now)
  {
    forall i | 0 <= i < |ms|
      ensures !Expired(ClampedMembers(ms)[i], now)
    {
      ClampedIndex(ms, i);
    }
    UnexpiredLength(ClampedMembers(ms), now);
  }

  predicate Early(m: Member) {
    m.expiresAt.Some? && m.expiresAt.value < EPOCH
  }

  lemma ClampKeepsAllIff(ms: seq<Member>)
    ensures ClampedMembers(ms) == ms <==> forall m :: m in ms ==> !Early(m)
  {
    forall i | 0 <= i < |ms|
      ensures ClampedMembers(ms)[i] == ms[i] <==> !Early(ms[i])
    {
      ClampedIndex(ms, i);
    }
    if forall m :: m in ms ==> !Early(m) {
      assert forall i :: 0 <= i < |ms| ==> ClampedMembers(ms)[i] == ms[i];
    }
    if ClampedMembers(ms) == ms {
      forall m | m in ms
        ensures !Early(m)
      {
        var i :| 0 <= i < |ms| && ms[i] == m;
      }
    }
  }

  lemma ClampUnexpiredIff(ms: seq<Member>, now: Time)
    ensures Unexpired(ClampedMembers(ms), now) == Unexpired(ms, now) <==>
            now >= EPOCH || forall m :: m in ms ==> !Early(m)
  {
    if now >= EPOCH {
      ClampUnexpired(ms, now);
    } else {
      ClampedIsUnexpired(ms, now);
      ClampKeepsAllIff(ms);
      UnexpiredLength(ms, now);
      if |Unexpired(ms, now)| == |ms| { AllUnexpired(ms, now); }
    }
  }

  lemma {:induction false} AllUnexpired(ms: seq<Member>, now: Time)
    requires |Unexpired(ms, now)| == |ms|
    ensures Unexpired(ms, now) == ms
  {
    if ms != [] {
      UnexpiredLength(ms[1..], now);
      AllUnexpired(ms[1..], now);
      assert ms == [ms[0]] + ms[1..];
    }
  }

  // ---------------------------------------------------------------- what each operation shows, exactly

  /** A listing shows the clamp exactly to a clock before the epoch, of a ring with an expiry before the epoch. */
  lemma ClampKeepsListingIff(s: Registry, ring: Name, now: Time)
    ensures ListRingPeers(Clamped(s), ring, now) == ListRingPeers(s, ring, now) <==>
            now >= EPOCH || ring !in s.rings || forall m :: m in s.rings[ring] ==> !Early(m)
  {
    if ring in s.rings {
      ClampUnexpiredIff(s.rings[ring], now);
    }
  }

  /** An association that would grant `m.peer` the permission, had the membership not expired. */
  ghost predicate Missed(s: Registry, m: Member, a: Association, resource: Bytes, permission: Permission, now: Time) {
    && a in EntriesOf(s.resources, resource) && permission in a.permissions
    && a.ring in s.rings && m in s.rings[a.ring] && Expired(m, now)
  }

  lemma ClampedMemberIsLive(ms: seq<Member>, peer: Peer, now: Time)
    requires now < EPOCH
    ensures LiveMember(ClampedMembers(ms), peer, now) <==> exists m: Member :: m in ms && m.peer == peer
  {
    ClampedIsUnexpired(ms, now);
    forall i | 0 <= i < |ms|
      ensures ClampedMembers(ms)[i].peer == ms[i].peer
    {
      ClampedIndex(ms, i);
    }
    if m: Member :| m in ms && m.peer == peer {
      var i :| 0 <= i < |ms| && ms[i] == m;
      assert ClampedMembers(ms)[i] in ClampedMembers(ms);
    }
    if LiveMember(ClampedMembers(ms), peer, now) {
      var i :| 0 <= i < |ms| && ClampedMembers(ms)[i].peer == peer;
      assert ms[i] in ms;
    }
  }

  lemma ClampedGrants(s: Registry, a: Association, peer: Peer, resource: Bytes, permission: Permission, now: Time)
    requires now < EPOCH && a in EntriesOf(s.resources, resource)
    ensures Grants(Clamped(s), a, peer, permission, now) <==>
            || Grants(s, a, peer, permission, now)
            || exists m: Member :: m.peer == peer && Missed(s, m, a, resource, permission, now)
  {
    if a.ring in s.rings {
      ClampedMemberIsLive(s.rings[a.ring], peer, now);
      if m: Member :| m in s.rings[a.ring] && m.peer == peer && permission in a.permissions {
        assert Expired(m, now) ==> Missed(s, m, a, resource, permission, now);
      }
    }
  }

  /**
   A decision shows the clamp exactly to a clock before the epoch, when an expired membership is all that would
   grant it.
   */
  lemma ClampKeepsDecisionIff(s: Registry, peer: Peer, resource: Bytes, permission: Permission, now: Time)
    ensures HasPermission(Clamped(s), peer, resource, permission, now)
            == HasPermission(s, peer, resource, permission, now)
            <==>
            || now >= EPOCH
            || HasPermission(s, peer, resource, permission, now)
            || !exists m: Member, a :: m.peer == peer && Missed(s, m, a, resource, permission, now)
  {
    if now >= EPOCH {
      ClampHasPermission(s, peer, resource, permission, now);
    } else {
      forall a | a in EntriesOf(s.resources, resource)
        ensures Grants(Clamped(s), a, peer, permission, now) <==>
                || Grants(s, a, peer, permission, now)
                || exists m: Member :: m.peer == peer && Missed(s, m, a, resource, permission, now)
      {
        ClampedGrants(s, a, peer, resource, permission, now);
      }
      assert Clamped(s).resources == s.resources;
    }
  }

  /** Re-adding an expired member keeps nothing of it; unexpired by the clamp, its label and expiry would stay. */
  ghost predicate RenewedAlike(m: Member, lbl: Option<Label>, expiresAt: Option<Time>, now: Time) {
    now >= EPOCH || !Expired(m, now) || (expiresAt.Some? && (lbl.Some? || m.lbl.None?))
  }

  lemma ClampRenewedIff(m: Member, lbl: Option<Label>, expiresAt: Option<Time>, now: Time)
    ensures Renewed(ClampedMember(m), lbl, ClampOption(expiresAt), now)
            == ClampedMember(Renewed(m, lbl, expiresAt, now))
            <==> RenewedAlike(m, lbl, expiresAt, now)
  {
    if now >= EPOCH {
      ClampExpires(m, now);
    }
  }

  lemma {:induction false} ClampAppend(ms: seq<Member>, m: Member)
    ensures ClampedMembers(ms + [m]) == ClampedMembers(ms) + [ClampedMember(m)]
  {
    if ms == [] {
      assert ms + [m] == [m];
    } else {
      ClampAppend(ms[1..], m);
      assert (ms + [m])[1..] == ms[1..] + [m];
    }
  }

  lemma ClampReplace(ms: seq<Member>, i: nat, m: Member)
    requires i < |ms|
    ensures ClampedMembers(ms[i := m]) == ClampedMembers(ms)[i := ClampedMember(m)]
  {
    var updated := ClampedMembers(ms[i := m]);
    forall j | 0 <= j < |ms|
      ensures updated[j] == ClampedMembers(ms)[i := ClampedMember(m)][j]
    {
      ClampedIndex(ms[i := m], j);
      ClampedIndex(ms, j);
    }
  }

  lemma ReplacedAlikeIff(ms: seq<Member>, i: nat, m: Member, m': Member)
    requires i < |ms|
    ensures ms[i := m] == ms[i := m'] <==> m == m'
  {
    assert ms[i := m][i] == m && ms[i := m'][i] == m';
  }

  lemma ClampEnrolledIff(ms: seq<Member>, peer: Peer, lbl: Option<Label>, expiresAt: Option<Time>, now: Time)
    ensures Enrolled(ClampedMembers(ms), peer, lbl, ClampOption(expiresAt), now)
            == ClampedMembers(Enrolled(ms, peer, lbl, expiresAt, now))
            <==> (FindPeer(ms, peer) < |ms| ==> RenewedAlike(ms[FindPeer(ms, peer)], lbl, expiresAt, now))
  {
    ClampFindPeer(ms, peer);
    var i := FindPeer(ms, peer);
    if i == |ms| {
      ClampAppend(ms, Member(peer, lbl, expiresAt));
    } else {
      var m := Renewed(ms[i], lbl, expiresAt, now);
      var m' := Renewed(ClampedMember(ms[i]), lbl, ClampOption(expiresAt), now);
      ClampedIndex(ms, i);
      ClampReplace(ms, i, m);
      ReplacedAlikeIff(ClampedMembers(ms), i, m', ClampedMember(m));
      ClampRenewedIff(ms[i], lbl, expiresAt, now);
    }
  }

  lemma ClampOneRingIff(s: Registry, ring: Name, ms: seq<Member>, ms': seq<Member>)
    ensures Clamped(s).(rings := Clamped(s).rings[ring := ms']) == Clamped(s.(rings := s.rings[ring := ms]))
            <==> ms' == ClampedMembers(ms)
  {
    ClampOneRing(s, ring, ms, ClampedMembers(ms));
    assert Clamped(s).rings[ring := ms'][ring] == ms';
    assert Clamped(s.(rings := s.rings[ring := ms])).rings[ring] == ClampedMembers(ms);
  }

  lemma ClampAddPeerIff(
    s: Registry, ring: Name, peer: Peer, lbl: Option<Label>, expiresAt: Option<Time>, now: Time)
    ensures AddPeer(Clamped(s), ring, peer, lbl, ClampOption(expiresAt), now).0
            == Clamped(AddPeer(s, ring, peer, lbl, expiresAt, now).0)
            <==> AddedAlike(s, ring, peer, lbl, expiresAt, now)
  {
    if ring in s.rings {
      var ms := s.rings[ring];
      ClampEnrolledIff(ms, peer, lbl, expiresAt, now);
      ClampOneRingIff(s, ring, Enrolled(ms, peer, lbl, expiresAt, now),
                      Enrolled(ClampedMembers(ms), peer, lbl, ClampOption(expiresAt), now));
    }
  }

  ghost predicate AddedAlike(
    s: Registry, ring: Name, peer: Peer, lbl: Option<Label>, expiresAt: Option<Time>, now: Time)
  {
    ring in s.rings && FindPeer(s.rings[ring], peer) < |s.rings[ring]| ==>
      RenewedAlike(s.rings[ring][FindPeer(s.rings[ring], peer)], lbl, expiresAt, now)
  }

  lemma ClampEvictIff(s: Registry, now: Time)
    ensures Evict(Clamped(s), now) == Clamped(Evict(s, now)) && Evicted(Clamped(s), now) == Evicted(s, now)
            <==> now >= EPOCH || Evicted(s, now) == {}
  {
    if now >= EPOCH {
      ClampEvict(s, now);
      ClampEvicted(s, now);
    } else {
      forall ring | ring in s.rings
        ensures Unexpired(ClampedMembers(s.rings[ring]), now) == ClampedMembers(s.rings[ring])
        ensures forall m :: m in ClampedMembers(s.rings[ring]) ==> !Expired(m, now)
        ensures Evicted(s, now) == {} ==> Unexpired(s.rings[ring], now) == s.rings[ring]
      {
        ClampedIsUnexpired(s.rings[ring], now);
        UnexpiredLength(s.rings[ring], now);
        if m :| m in s.rings[ring] && Expired(m, now) {
          assert (ring, m.peer) in Evicted(s, now);
        }
      }
      assert Evicted(Clamped(s), now) == {};
      if Evicted(s, now) == {} {
        assert Evict(s, now).rings == s.rings;
        assert Evict(Clamped(s), now).rings == Clamped(s).rings;
      }
    }
  }

  /** The operation, on this registry, does not show the clamp. */
  ghost predicate ClampHidden(s: Registry, op: Operation) {
    match op
    case AddPeerOp(ring, peer, lbl, expiresAt, now) => AddedAlike(s, ring, peer, lbl, expiresAt, now)
    case ListRingPeersOp(ring, now) => now >= EPOCH || ring !in s.rings || forall m :: m in s.rings[ring] ==> !Early(m)
    case HasPermissionOp(peer, resource, permission, now) =>
      || now >= EPOCH
      || HasPermission(s, peer, resource, permission, now)
      || !exists m: Member, a :: m.peer == peer && Missed(s, m, a, resource, permission, now)
    case EvictOp(now) => now >= EPOCH || Evicted(s, now) == {}
    case _ => true
  }

  /**
   The clamped registry takes the clamped step with the same answer exactly when the operation reads a
   clock at or after the epoch, or meets no membership that the clamp revives.
   */
  lemma ClampStepIff(s: Registry, op: Operation)
    ensures Step(Clamped(s), ClampedOp(op)) == (Clamped(Step(s, op).0), Step(s, op).1) <==> ClampHidden(s, op)
  {
    match op
    case CreateRingOp(ring) =>
      ClampOneRing(s, ring, [], []);
    case AddPeerOp(ring, peer, lbl, expiresAt, now) =>
      ClampAddPeerIff(s, ring, peer, lbl, expiresAt, now);
    case RemovePeerOp(ring, peer) =>
      if ring in s.rings {
        ClampWithoutPeer(s.rings[ring], peer);
        ClampOneRing(s, ring, WithoutPeer(s.rings[ring], peer), WithoutPeer(ClampedMembers(s.rings[ring]), peer));
      }
    case ListRingPeersOp(ring, now) =>
      ClampKeepsListingIff(s, ring, now);
    case HasPermissionOp(peer, resource, permission, now) =>
      ClampKeepsDecisionIff(s, peer, resource, permission, now);
    case EvictOp(now) =>
      ClampEvictIff(s, now);
    case _ =>
      assert Clamped(s).rings.Keys == s.rings.Keys;
  }

  /** With a clock at or after the epoch no operation shows it. */
  lemma ClampHiddenFromEpoch(s: Registry, op: Operation)
    requires ClockAtLeast(op, EPOCH)
    ensures ClampHidden(s, op)
  {
  }

  function ClampedOps(ops: seq<Operation>): seq<Operation> {
    if ops == [] then [] else [ClampedOp(ops[0])] + ClampedOps(ops[1..])
  }

  /** Whole runs: the clamp never shows in an answer. */
  lemma {:induction false} ClampRun(s: Registry, ops: seq<Operation>)
    requires forall op :: op in ops ==> ClockAtLeast(op, EPOCH)
    ensures Run(Clamped(s), ClampedOps(ops)) == (Clamped(Run(s, ops).0), Run(s, ops).1)
    decreases |ops|
  {
    if ops != [] {
      ClampHiddenFromEpoch(s, ops[0]);
      ClampStepIff(s, ops[0]);
      ClampRun(Step(s, ops[0]).0, ops[1..]);
      assert ClampedOps(ops)[1..] == ClampedOps(ops[1..]);
    }
  }

  /** With a clock before the epoch the backends can disagree: an expiry at -10 has passed for one of them at -5. */
  lemma ClampShowsBeforeEpoch(peer: Peer)
    ensures var s := Registry(map[OPEN_RING_NAME := [Member(peer, None, Some(-10))]], map[]);
      ListRingPeers(s, OPEN_RING_NAME, -5) != ListRingPeers(Clamped(s), OPEN_RING_NAME, -5)
  {
    var m := Member(peer, None, Some(-10));
    assert Unexpired([m], -5) == [];
    assert ClampedMembers([m]) == [ClampedMember(m)];
    assert Unexpired([ClampedMember(m)], -5) == [ClampedMember(m)];
  }
}
