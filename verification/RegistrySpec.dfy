/**
 The registry as the `Registry` trait of src/registry.rs documents it: rings with their
 members in order, and resources with their associations in order. Both backends are proved
 against the functions of this module.

 The clock reading an operation takes is an argument of that operation.
 */
module RegistrySpec {
  import opened Types
  import opened Ring

  datatype Member = Member(peer: Peer, lbl: Option<Label>, expiresAt: Option<Time>)

  /** A ring associated with a resource and what it grants there. */
  datatype Entry<P> = Entry(ring: Name, permissions: P)

  type Association = Entry<set<Permission>>

  datatype Registry = Registry(
    rings: map<Name, seq<Member>>,
    resources: map<Bytes, seq<Association>>)

  /** The registry a backend starts from. */
  const INITIAL: Registry := Registry(map[OPEN_RING_NAME := []], map[])

  // ---------------------------------------------------------------- membership

  predicate Expired(m: Member, now: Time) {
    m.expiresAt.Some? && now >= m.expiresAt.value
  }

  /** The position of `peer` in `ms`, or `|ms|`. */
  function FindPeer(ms: seq<Member>, peer: Peer): (i: nat)
    ensures i <= |ms|
    ensures i < |ms| ==> ms[i].peer == peer
    ensures forall j :: 0 <= j < i ==> ms[j].peer != peer
  {
    if ms == [] then 0
    else if ms[0].peer == peer then 0
    else 1 + FindPeer(ms[1..], peer)
  }

  function Unexpired(ms: seq<Member>, now: Time): seq<Member> {
    if ms == [] then []
    else if Expired(ms[0], now) then Unexpired(ms[1..], now)
    else [ms[0]] + Unexpired(ms[1..], now)
  }

  function WithoutPeer(ms: seq<Member>, peer: Peer): seq<Member> {
    if ms == [] then []
    else if ms[0].peer == peer then WithoutPeer(ms[1..], peer)
    else [ms[0]] + WithoutPeer(ms[1..], peer)
  }

  function OrElse<T>(new_: Option<T>, old_: Option<T>): Option<T> {
    if new_.Some? then new_ else old_
  }

  /** What a re-added member becomes: an expired one starts fresh, a live one keeps what is not given. */
  function Renewed(m: Member, lbl: Option<Label>, expiresAt: Option<Time>, now: Time): Member {
    if Expired(m, now)
    then Member(m.peer, lbl, expiresAt)
    else Member(m.peer, OrElse(lbl, m.lbl), OrElse(expiresAt, m.expiresAt))
  }

  function Enrolled(ms: seq<Member>, peer: Peer, lbl: Option<Label>, expiresAt: Option<Time>, now: Time): seq<Member> {
    var i := FindPeer(ms, peer);
    if i == |ms| then ms + [Member(peer, lbl, expiresAt)]
    else ms[i := Renewed(ms[i], lbl, expiresAt, now)]
  }

  ghost predicate DistinctPeers(ms: seq<Member>) {
    forall i, j :: 0 <= i < j < |ms| ==> ms[i].peer != ms[j].peer
  }

  // ---------------------------------------------------------------- associations

  function FindRing<P>(es: seq<Entry<P>>, ring: Name): (i: nat)
    ensures i <= |es|
    ensures i < |es| ==> es[i].ring == ring
    ensures forall j :: 0 <= j < i ==> es[j].ring != ring
  {
    if es == [] then 0
    else if es[0].ring == ring then 0
    else 1 + FindRing(es[1..], ring)
  }

  /** `es` with `ring` granting `permissions`: in its old place, or at the end. */
  function Associate<P>(es: seq<Entry<P>>, ring: Name, permissions: P): seq<Entry<P>> {
    var i := FindRing(es, ring);
    if i == |es| then es + [Entry(ring, permissions)]
    else es[i := Entry(ring, permissions)]
  }

  function EntriesOf<P>(resources: map<Bytes, seq<Entry<P>>>, resource: Bytes): seq<Entry<P>> {
    if resource in resources then resources[resource] else []
  }

  ghost predicate DistinctRings<P>(es: seq<Entry<P>>) {
    forall i, j :: 0 <= i < j < |es| ==> es[i].ring != es[j].ring
  }

  // ---------------------------------------------------------------- operations

  function CreateRing(s: Registry, ring: Name): (Registry, Result<()>) {
    match NewRing(ring)
    case Err(e) => (s, Err(e))
    case Ok(_) =>
      if IsOpen(ring) then (s, Err(RingNameReserved(OPEN_RING_NAME)))
      else if ring in s.rings then (s, Err(RingAlreadyExists(ring)))
      else (s.(rings := s.rings[ring := []]), Ok(()))
  }

  function AddPeer(s: Registry, ring: Name, peer: Peer, lbl: Option<Label>, expiresAt: Option<Time>, now: Time)
    : (Registry, Result<()>)
  {
    if ring !in s.rings then (s, Err(RingNotFound(ring)))
    else (s.(rings := s.rings[ring := Enrolled(s.rings[ring], peer, lbl, expiresAt, now)]), Ok(()))
  }

  function RemovePeer(s: Registry, ring: Name, peer: Peer): (Registry, Result<()>) {
    if ring !in s.rings then (s, Err(RingNotFound(ring)))
    else (s.(rings := s.rings[ring := WithoutPeer(s.rings[ring], peer)]), Ok(()))
  }

  function ListRingPeers(s: Registry, ring: Name, now: Time): Result<seq<Member>> {
    if ring !in s.rings then Err(RingNotFound(ring))
    else Ok(Unexpired(s.rings[ring], now))
  }

  function RemoveRings(s: Registry, resource: Bytes): Registry {
    s.(resources := s.resources - {resource})
  }

  /** `validate_ring_permissions`, on the set of permissions asked for. */
  function ValidatePermissions(ring: Name, permissions: set<Permission>): Result<()> {
    if permissions == {} then Err(EmptyPermissionSet)
    else if IsOpen(ring) && permissions != {Read} then Err(OpenRingReadOnly)
    else Ok(())
  }

  function AddRing(s: Registry, resource: Bytes, ring: Name, permissions: set<Permission>): (Registry, Result<()>) {
    match ValidatePermissions(ring, permissions)
    case Err(e) => (s, Err(e))
    case Ok(_) =>
      if ring !in s.rings then (s, Err(RingNotFound(ring)))
      else
        var updated := Associate(EntriesOf(s.resources, resource), ring, permissions);
        (s.(resources := s.resources[resource := updated]), Ok(()))
  }

  predicate LiveMember(ms: seq<Member>, peer: Peer, now: Time) {
    exists m | m in ms :: m.peer == peer && !Expired(m, now)
  }

  predicate Grants(s: Registry, a: Association, peer: Peer, permission: Permission, now: Time) {
    && permission in a.permissions
    && (IsOpen(a.ring) || (a.ring in s.rings && LiveMember(s.rings[a.ring], peer, now)))
  }

  /** Some ring associated with the resource grants the permission, and is open or has the peer as a live member. */
  predicate HasPermission(s: Registry, peer: Peer, resource: Bytes, permission: Permission, now: Time) {
    exists a | a in EntriesOf(s.resources, resource) :: Grants(s, a, peer, permission, now)
  }

  function Evict(s: Registry, now: Time): Registry {
    s.(rings := map ring | ring in s.rings :: Unexpired(s.rings[ring], now))
  }

  /** The memberships whose expiry is at or before `now`. */
  function Evicted(s: Registry, now: Time): set<(Name, Peer)> {
    set ring, m | ring in s.rings && m in s.rings[ring] && Expired(m, now) :: (ring, m.peer)
  }

  // ---------------------------------------------------------------- runs

  datatype Operation =
    | CreateRingOp(ring: Name)
    | AddPeerOp(ring: Name, peer: Peer, lbl: Option<Label>, expiresAt: Option<Time>, now: Time)
    | RemovePeerOp(ring: Name, peer: Peer)
    | ListRingPeersOp(ring: Name, now: Time)
    | ListRingsOp
    | RemoveRingsOp(resource: Bytes)
    | ListResourceRingsOp(resource: Bytes)
    | AddRingOp(resource: Bytes, ring: Name, permissions: seq<Permission>)
    | HasPermissionOp(peer: Peer, resource: Bytes, permission: Permission, now: Time)
    | EvictOp(now: Time)

  datatype Response =
    | Done(result: Result<()>)
    | Members(members: Result<seq<Member>>)
    | Rings(rings: set<Name>)
    | Associations(associations: seq<Association>)
    | Decision(granted: bool)
    | EvictedMemberships(evicted: set<(Name, Peer)>)

  function Step(s: Registry, op: Operation): (Registry, Response) {
    match op
    case CreateRingOp(ring) =>
      var (s', r) := CreateRing(s, ring); (s', Done(r))
    case AddPeerOp(ring, peer, lbl, expiresAt, now) =>
      var (s', r) := AddPeer(s, ring, peer, lbl, expiresAt, now); (s', Done(r))
    case RemovePeerOp(ring, peer) =>
      var (s', r) := RemovePeer(s, ring, peer); (s', Done(r))
    case ListRingPeersOp(ring, now) => (s, Members(ListRingPeers(s, ring, now)))
    case ListRingsOp => (s, Rings(s.rings.Keys))
    case RemoveRingsOp(resource) => (RemoveRings(s, resource), Done(Ok(())))
    case ListResourceRingsOp(resource) => (s, Associations(EntriesOf(s.resources, resource)))
    case AddRingOp(resource, ring, permissions) =>
      var (s', r) := AddRing(s, resource, ring, Elements(permissions)); (s', Done(r))
    case HasPermissionOp(peer, resource, permission, now) =>
      (s, Decision(HasPermission(s, peer, resource, permission, now)))
    case EvictOp(now) => (Evict(s, now), EvictedMemberships(Evicted(s, now)))
  }

  function Run(s: Registry, ops: seq<Operation>): (Registry, seq<Response>)
    decreases |ops|
  {
    if ops == [] then (s, [])
    else
      var (s1, r) := Step(s, ops[0]);
      var (s2, rs) := Run(s1, ops[1..]);
      (s2, [r] + rs)
  }
}
