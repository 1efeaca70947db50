/**
 The registry flattened into four maps, the shape `Inner` of src/backends/memory.rs has and the
 redb tables encode: labels and expiries live beside the member lists, keyed by ring and peer.

 `View` puts the pieces back together. It gives the registry of RegistrySpec only because no label
 and no expiry ever outlives its membership (`NoOrphans`): a peer added to a ring would otherwise
 inherit what an earlier membership left behind.
 */
module Store {
  import opened Types
  import opened Ring
  import opened RegistrySpec
  import opened RegistryInvariants

  type Key = (Name, Peer)

  datatype Store = Store(
    rings: map<Name, seq<Peer>>,
    labels: map<Key, Label>,
    expiries: map<Key, Time>,
    resources: map<Bytes, seq<Association>>)

  function MemberOf(st: Store, ring: Name, peer: Peer): Member {
    Member(peer, Get(st.labels, (ring, peer)), Get(st.expiries, (ring, peer)))
  }

  function MembersOf(st: Store, ring: Name, ids: seq<Peer>): (ms: seq<Member>)
    ensures |ms| == |ids|
    ensures forall i :: 0 <= i < |ids| ==> ms[i] == MemberOf(st, ring, ids[i])
  {
    if ids == [] then [] else [MemberOf(st, ring, ids[0])] + MembersOf(st, ring, ids[1..])
  }

  function View(st: Store): Registry {
    Registry(map ring | ring in st.rings :: MembersOf(st, ring, st.rings[ring]), st.resources)
  }

  ghost predicate IsMember(st: Store, k: Key) {
    k.0 in st.rings && k.1 in st.rings[k.0]
  }

  ghost predicate RowsHaveMember(st: Store, k: Key) {
    k in st.labels || k in st.expiries ==> IsMember(st, k)
  }

  ghost predicate NoOrphans(st: Store) {
    forall k :: RowsHaveMember(st, k)
  }

  ghost predicate Consistent(st: Store) {
    NoOrphans(st) && WellFormed(View(st))
  }

  const EMPTY: Store := Store(map[OPEN_RING_NAME := []], map[], map[], map[])

  lemma EmptyIsConsistent()
    ensures Consistent(EMPTY) && View(EMPTY) == INITIAL
  {
    InitialIsWellFormed();
    assert View(EMPTY) == INITIAL;
  }

  lemma ConsistentRing(st: Store, ring: Name)
    requires Consistent(st) && ring in st.rings
    ensures ValidName(ring) && NoDuplicates(st.rings[ring])
  {
    var ms := View(st).rings[ring];
    assert GoodRing(View(st), ring);
    forall i, j | 0 <= i < j < |st.rings[ring]|
      ensures st.rings[ring][i] != st.rings[ring][j]
    {
      assert ms[i].peer != ms[j].peer;
    }
  }

  predicate HasExpired(st: Store, k: Key, now: Time) {
    k in st.expiries && now >= st.expiries[k]
  }

  /** `Vec::retain`, dropping the ids in `gone`. */
  function Retain(ids: seq<Peer>, gone: set<Peer>): seq<Peer> {
    if ids == [] then []
    else if ids[0] in gone then Retain(ids[1..], gone)
    else [ids[0]] + Retain(ids[1..], gone)
  }

  lemma {:induction false} RetainElements(ids: seq<Peer>, gone: set<Peer>)
    ensures forall p :: p in Retain(ids, gone) <==> p in ids && p !in gone
  {
    if ids != [] {
      RetainElements(ids[1..], gone);
    }
  }

  // ---------------------------------------------------------------- updates

  function CreateRingIn(st: Store, ring: Name): Store {
    st.(rings := st.rings[ring := []])
  }

  /** `peer` in the ring: appended if it is new, stripped of its rows if its membership has expired. */
  function JoinedIn(st: Store, ring: Name, peer: Peer, now: Time): Store
    requires ring in st.rings
  {
    var k := (ring, peer);
    if peer !in st.rings[ring] then st.(rings := st.rings[ring := st.rings[ring] + [peer]])
    else if HasExpired(st, k, now) then st.(labels := st.labels - {k}, expiries := st.expiries - {k})
    else st
  }

  function LabelledIn(st: Store, k: Key, lbl: Option<Label>): Store {
    if lbl.Some? then st.(labels := st.labels[k := lbl.value]) else st
  }

  function ExpiringIn(st: Store, k: Key, expiresAt: Option<Time>): Store {
    if expiresAt.Some? then st.(expiries := st.expiries[k := expiresAt.value]) else st
  }

  function AddPeerIn(st: Store, ring: Name, peer: Peer, lbl: Option<Label>, expiresAt: Option<Time>, now: Time): Store
    requires ring in st.rings
  {
    ExpiringIn(LabelledIn(JoinedIn(st, ring, peer, now), (ring, peer), lbl), (ring, peer), expiresAt)
  }

  function RemovePeerIn(st: Store, ring: Name, peer: Peer): Store
    requires ring in st.rings
  {
    Store(st.rings[ring := Retain(st.rings[ring], {peer})], st.labels - {(ring, peer)}, st.expiries - {(ring, peer)},
          st.resources)
  }

  function PeersIn(ks: set<Key>, ring: Name): set<Peer> {
    set k | k in ks && k.0 == ring :: k.1
  }

  /** `st` without the memberships `ks`: each ring's list filtered once, and the rows of `ks` gone. */
  function WithoutKeys(st: Store, ks: set<Key>): Store {
    Store(map ring | ring in st.rings :: Retain(st.rings[ring], PeersIn(ks, ring)),
          st.labels - ks, st.expiries - ks, st.resources)
  }

  function ExpiredKeys(st: Store, now: Time): set<Key> {
    set k | k in st.expiries && now >= st.expiries[k]
  }

  // ---------------------------------------------------------------- the updates are the operations

  /** The members of a ring depend only on that ring's rows. */
  lemma {:induction false} SameRowsSameMembers(st: Store, st': Store, ring: Name, ids: seq<Peer>)
    requires forall p: Peer :: p in ids ==> MemberOf(st, ring, p) == MemberOf(st', ring, p)
    ensures MembersOf(st', ring, ids) == MembersOf(st, ring, ids)
  {
    assert forall i :: 0 <= i < |ids| ==> MembersOf(st', ring, ids)[i] == MembersOf(st, ring, ids)[i];
  }

  lemma FindPeerInMembers(st: Store, ring: Name, ids: seq<Peer>, peer: Peer)
    ensures FindPeer(MembersOf(st, ring, ids), peer) < |ids| <==> peer in ids
  {
    var ms := MembersOf(st, ring, ids);
    var i := FindPeer(ms, peer);
    if peer in ids {
      var j :| 0 <= j < |ids| && ids[j] == peer;
      assert ms[j].peer == peer;
    }
  }

  /** `st'` differs from `st` at most in the member list of `k`'s ring and in the rows of `k`. */
  ghost predicate ConfinedTo(st: Store, st': Store, k: Key) {
    && st'.resources == st.resources
    && st'.rings.Keys == st.rings.Keys
    && (forall ring :: ring in st.rings && ring != k.0 ==> st'.rings[ring] == st.rings[ring])
    && (forall k': Key :: k' != k ==>
          Get(st'.labels, k') == Get(st.labels, k') && Get(st'.expiries, k') == Get(st.expiries, k'))
  }

  lemma OtherMembersKept(st: Store, st': Store, k: Key)
    requires ConfinedTo(st, st', k)
    ensures forall ring, p: Peer :: (ring, p) != k ==> MemberOf(st', ring, p) == MemberOf(st, ring, p)
    ensures forall ring :: ring in st.rings && ring != k.0 ==> View(st').rings[ring] == View(st).rings[ring]
  {
    forall ring | ring in st.rings && ring != k.0
      ensures MembersOf(st', ring, st'.rings[ring]) == MembersOf(st, ring, st.rings[ring])
    {
      SameRowsSameMembers(st, st', ring, st.rings[ring]);
    }
  }

  /** A confined update changes one ring of the view, to whatever it made of that ring. */
  lemma ConfinedView(st: Store, st': Store, k: Key, ms: seq<Member>)
    requires ConfinedTo(st, st', k) && k.0 in st.rings
    requires MembersOf(st', k.0, st'.rings[k.0]) == ms
    ensures View(st') == View(st).(rings := View(st).rings[k.0 := ms])
  {
    OtherMembersKept(st, st', k);
    var v, v' := View(st).rings, View(st').rings;
    assert v'.Keys == v.Keys + {k.0} && v'[k.0] == ms;
    MapUpdated(v, v', k.0, ms);
  }

  lemma StillNoOrphans(st: Store, st': Store)
    requires NoOrphans(st)
    requires st'.labels.Keys <= st.labels.Keys && st'.expiries.Keys <= st.expiries.Keys
    requires forall ring :: ring in st.rings ==> ring in st'.rings && st'.rings[ring] == st.rings[ring]
    ensures NoOrphans(st')
  {
    forall k
      ensures RowsHaveMember(st', k)
    {
      assert RowsHaveMember(st, k);
    }
  }

  lemma CreateRingView(st: Store, ring: Name)
    requires ring !in st.rings
    ensures View(CreateRingIn(st, ring)).rings == View(st).rings[ring := []]
  {
    var v, v' := View(st).rings, View(CreateRingIn(st, ring)).rings;
    assert v'.Keys == v.Keys + {ring} && v'[ring] == [];
    forall r | r in v && r != ring
      ensures v'[r] == v[r]
    {
      SameRowsSameMembers(st, CreateRingIn(st, ring), r, st.rings[r]);
    }
    MapUpdated(v, v', ring, []);
  }

  lemma CreateRingRefines(st: Store, ring: Name)
    requires Consistent(st) && CreateRing(View(st), ring).1.Ok?
    ensures Consistent(CreateRingIn(st, ring))
    ensures View(CreateRingIn(st, ring)) == CreateRing(View(st), ring).0
  {
    CreateRingView(st, ring);
    CreateRingKeepsWellFormed(View(st), ring);
    StillNoOrphans(st, CreateRingIn(st, ring));
  }

  /** A peer that is no member has no rows, so a new membership starts without label and expiry. */
  lemma NewMemberHasNoRows(st: Store, ring: Name, peer: Peer)
    requires NoOrphans(st) && ring in st.rings && peer !in st.rings[ring]
    ensures (ring, peer) !in st.labels && (ring, peer) !in st.expiries
  {
    assert RowsHaveMember(st, (ring, peer));
  }

  lemma AddPeerRecord(st: Store, ring: Name, peer: Peer, lbl: Option<Label>, expiresAt: Option<Time>, now: Time)
    requires NoOrphans(st) && ring in st.rings
    ensures MemberOf(AddPeerIn(st, ring, peer, lbl, expiresAt, now), ring, peer) ==
            if peer in st.rings[ring] then Renewed(MemberOf(st, ring, peer), lbl, expiresAt, now)
            else Member(peer, lbl, expiresAt)
  {
    if peer !in st.rings[ring] {
      NewMemberHasNoRows(st, ring, peer);
    }
  }

  lemma AddPeerIsConfined(st: Store, ring: Name, peer: Peer, lbl: Option<Label>, expiresAt: Option<Time>, now: Time)
    requires ring in st.rings
    ensures ConfinedTo(st, AddPeerIn(st, ring, peer, lbl, expiresAt, now), (ring, peer))
  {
    var k := (ring, peer);
    var joined := JoinedIn(st, ring, peer, now);
    assert ConfinedTo(st, joined, k);
    var labelled := LabelledIn(joined, k, lbl);
    assert ConfinedTo(joined, labelled, k);
    ConfinedTransitive(st, joined, labelled, k);
    assert ConfinedTo(labelled, ExpiringIn(labelled, k, expiresAt), k);
    ConfinedTransitive(st, labelled, ExpiringIn(labelled, k, expiresAt), k);
  }

  lemma ConfinedTransitive(st: Store, st': Store, st'': Store, k: Key)
    requires ConfinedTo(st, st', k) && ConfinedTo(st', st'', k)
    ensures ConfinedTo(st, st'', k)
  {
  }

  lemma NewPeerIsLast(st: Store, st': Store, ring: Name, ids: seq<Peer>, peer: Peer)
    requires peer !in ids
    requires forall p: Peer :: p != peer ==> MemberOf(st', ring, p) == MemberOf(st, ring, p)
    ensures MembersOf(st', ring, ids + [peer]) == MembersOf(st, ring, ids) + [MemberOf(st', ring, peer)]
  {
    forall i | 0 <= i < |ids|
      ensures MembersOf(st', ring, ids + [peer])[i] == MembersOf(st, ring, ids)[i]
    {
      assert ids[i] != peer;
    }
  }

  lemma AddNewPeerToRing(
    st: Store, ring: Name, peer: Peer, lbl: Option<Label>, expiresAt: Option<Time>, now: Time)
    requires NoOrphans(st) && ring in st.rings && peer !in st.rings[ring]
    ensures var st' := AddPeerIn(st, ring, peer, lbl, expiresAt, now);
      MembersOf(st', ring, st'.rings[ring]) == Enrolled(MembersOf(st, ring, st.rings[ring]), peer, lbl, expiresAt, now)
  {
    var st' := AddPeerIn(st, ring, peer, lbl, expiresAt, now);
    var ids := st.rings[ring];
    FindPeerInMembers(st, ring, ids, peer);
    AddPeerRecord(st, ring, peer, lbl, expiresAt, now);
    AddPeerIsConfined(st, ring, peer, lbl, expiresAt, now);
    OtherMembersKept(st, st', (ring, peer));
    NewPeerIsLast(st, st', ring, ids, peer);
  }

  lemma ReaddPeerToRing(st: Store, ring: Name, peer: Peer, lbl: Option<Label>, expiresAt: Option<Time>, now: Time)
    requires NoOrphans(st) && ring in st.rings && NoDuplicates(st.rings[ring]) && peer in st.rings[ring]
    ensures var st' := AddPeerIn(st, ring, peer, lbl, expiresAt, now);
      MembersOf(st', ring, st'.rings[ring]) == Enrolled(MembersOf(st, ring, st.rings[ring]), peer, lbl, expiresAt, now)
  {
    var st' := AddPeerIn(st, ring, peer, lbl, expiresAt, now);
    var ids, ms := st.rings[ring], MembersOf(st, ring, st.rings[ring]);
    FindPeerInMembers(st, ring, ids, peer);
    var i := FindPeer(ms, peer);
    assert ids[i] == ms[i].peer;
    AddPeerRecord(st, ring, peer, lbl, expiresAt, now);
    AddPeerIsConfined(st, ring, peer, lbl, expiresAt, now);
    OtherMembersKept(st, st', (ring, peer));
    MemberReplaced(st, st', ring, ids, i);
  }

  lemma MemberReplaced(st: Store, st': Store, ring: Name, ids: seq<Peer>, i: nat)
    requires i < |ids| && NoDuplicates(ids)
    requires forall p: Peer :: p != ids[i] ==> MemberOf(st', ring, p) == MemberOf(st, ring, p)
    ensures MembersOf(st', ring, ids) == MembersOf(st, ring, ids)[i := MemberOf(st', ring, ids[i])]
  {
  }

  lemma AddPeerView(st: Store, ring: Name, peer: Peer, lbl: Option<Label>, expiresAt: Option<Time>, now: Time)
    requires NoOrphans(st) && ring in st.rings && NoDuplicates(st.rings[ring])
    ensures View(AddPeerIn(st, ring, peer, lbl, expiresAt, now)) == AddPeer(View(st), ring, peer, lbl, expiresAt, now).0
  {
    if peer in st.rings[ring] {
      ReaddPeerToRing(st, ring, peer, lbl, expiresAt, now);
    } else {
      AddNewPeerToRing(st, ring, peer, lbl, expiresAt, now);
    }
    AddPeerIsConfined(st, ring, peer, lbl, expiresAt, now);
    ConfinedView(st, AddPeerIn(st, ring, peer, lbl, expiresAt, now), (ring, peer),
                 Enrolled(View(st).rings[ring], peer, lbl, expiresAt, now));
  }

  lemma AddPeerLeavesNoOrphans(
    st: Store, ring: Name, peer: Peer, lbl: Option<Label>, expiresAt: Option<Time>, now: Time)
    requires NoOrphans(st) && ring in st.rings
    ensures NoOrphans(AddPeerIn(st, ring, peer, lbl, expiresAt, now))
  {
    var st' := AddPeerIn(st, ring, peer, lbl, expiresAt, now);
    AddPeerIsConfined(st, ring, peer, lbl, expiresAt, now);
    forall k
      ensures RowsHaveMember(st', k)
    {
      assert RowsHaveMember(st, k);
    }
  }

  lemma AddPeerRefines(st: Store, ring: Name, peer: Peer, lbl: Option<Label>, expiresAt: Option<Time>, now: Time)
    requires Consistent(st) && ring in st.rings
    ensures var st' := AddPeerIn(st, ring, peer, lbl, expiresAt, now);
      && Consistent(st')
      && View(st') == AddPeer(View(st), ring, peer, lbl, expiresAt, now).0
  {
    ConsistentRing(st, ring);
    AddPeerView(st, ring, peer, lbl, expiresAt, now);
    AddPeerKeepsWellFormed(View(st), ring, peer, lbl, expiresAt, now);
    AddPeerLeavesNoOrphans(st, ring, peer, lbl, expiresAt, now);
  }

  lemma {:induction false} RetainOne(st: Store, st': Store, ring: Name, ids: seq<Peer>, peer: Peer)
    requires forall p: Peer :: p != peer ==> MemberOf(st', ring, p) == MemberOf(st, ring, p)
    ensures MembersOf(st', ring, Retain(ids, {peer})) == WithoutPeer(MembersOf(st, ring, ids), peer)
  {
    if ids != [] {
      RetainOne(st, st', ring, ids[1..], peer);
      var rest := Retain(ids[1..], {peer});
      assert MembersOf(st, ring, ids)[1..] == MembersOf(st, ring, ids[1..]);
      assert ([ids[0]] + rest)[1..] == rest;
    }
  }

  lemma RemovePeerView(st: Store, ring: Name, peer: Peer)
    requires ring in st.rings
    ensures View(RemovePeerIn(st, ring, peer)) == RemovePeer(View(st), ring, peer).0
  {
    var st' := RemovePeerIn(st, ring, peer);
    assert ConfinedTo(st, st', (ring, peer));
    OtherMembersKept(st, st', (ring, peer));
    RetainOne(st, st', ring, st.rings[ring], peer);
    ConfinedView(st, st', (ring, peer), WithoutPeer(View(st).rings[ring], peer));
  }

  lemma RemovePeerLeavesNoOrphans(st: Store, ring: Name, peer: Peer)
    requires NoOrphans(st) && ring in st.rings
    ensures NoOrphans(RemovePeerIn(st, ring, peer))
  {
    RetainElements(st.rings[ring], {peer});
    forall k
      ensures RowsHaveMember(RemovePeerIn(st, ring, peer), k)
    {
      assert RowsHaveMember(st, k);
    }
  }

  lemma RemovePeerRefines(st: Store, ring: Name, peer: Peer)
    requires Consistent(st) && ring in st.rings
    ensures Consistent(RemovePeerIn(st, ring, peer))
    ensures View(RemovePeerIn(st, ring, peer)) == RemovePeer(View(st), ring, peer).0
  {
    RemovePeerView(st, ring, peer);
    RemovePeerKeepsWellFormed(View(st), ring, peer);
    RemovePeerLeavesNoOrphans(st, ring, peer);
  }

  // ---------------------------------------------------------------- eviction

  /** Dropping one id after another filters as dropping them together. */
  lemma {:induction false} RetainTwice(ids: seq<Peer>, a: set<Peer>, b: set<Peer>)
    ensures Retain(Retain(ids, a), b) == Retain(ids, a + b)
  {
    if ids != [] {
      RetainTwice(ids[1..], a, b);
      var rest := Retain(ids[1..], a);
      assert ([ids[0]] + rest)[1..] == rest;
    }
  }

  lemma {:induction false} RetainNone(ids: seq<Peer>)
    ensures Retain(ids, {}) == ids
  {
    if ids != [] {
      RetainNone(ids[1..]);
      assert ids == [ids[0]] + ids[1..];
    }
  }

  lemma WithoutNoKeys(st: Store)
    ensures WithoutKeys(st, {}) == st
  {
    forall ring | ring in st.rings
      ensures Retain(st.rings[ring], PeersIn({}, ring)) == st.rings[ring]
    {
      assert PeersIn({}, ring) == {};
      RetainNone(st.rings[ring]);
    }
  }

  /**
   Removing memberships in two batches is removing them in one. With one key per batch, this is
   why the in-memory backend, going key by key, agrees with the redb backend, going ring by ring.
   */
  lemma BatchesCompose(st: Store, ks: set<Key>, ks': set<Key>)
    ensures WithoutKeys(WithoutKeys(st, ks), ks') == WithoutKeys(st, ks + ks')
  {
    forall ring | ring in st.rings
      ensures Retain(Retain(st.rings[ring], PeersIn(ks, ring)), PeersIn(ks', ring))
              == Retain(st.rings[ring], PeersIn(ks + ks', ring))
    {
      RetainTwice(st.rings[ring], PeersIn(ks, ring), PeersIn(ks', ring));
      assert PeersIn(ks, ring) + PeersIn(ks', ring) == PeersIn(ks + ks', ring);
    }
  }

  lemma OneMoreKey(st: Store, keys: seq<Key>, i: nat)
    requires i < |keys|
    ensures keys[..i + 1] == keys[..i] + [keys[i]]
    ensures WithoutKeys(WithoutKeys(st, Elements(keys[..i])), {keys[i]}) == WithoutKeys(st, Elements(keys[..i + 1]))
  {
    BatchesCompose(st, Elements(keys[..i]), {keys[i]});
    assert Elements(keys[..i + 1]) == Elements(keys[..i]) + {keys[i]};
  }

  /** Removing one membership touches one ring. */
  lemma WithoutOneKey(st: Store, ring: Name, peer: Peer)
    ensures WithoutKeys(st, {(ring, peer)}) ==
            if ring in st.rings then RemovePeerIn(st, ring, peer)
            else st.(labels := st.labels - {(ring, peer)}, expiries := st.expiries - {(ring, peer)})
  {
    var ks := {(ring, peer)};
    assert PeersIn(ks, ring) == {peer};
    forall r | r in st.rings && r != ring
      ensures Retain(st.rings[r], PeersIn(ks, r)) == st.rings[r]
    {
      assert PeersIn(ks, r) == {};
      RetainNone(st.rings[r]);
    }
  }

  lemma {:induction false} RetainExpired(st: Store, st': Store, ring: Name, ids: seq<Peer>, gone: set<Peer>, now: Time)
    requires forall p: Peer :: p in ids ==> (p in gone <==> Expired(MemberOf(st, ring, p), now))
    requires forall p: Peer :: p in ids && p !in gone ==> MemberOf(st', ring, p) == MemberOf(st, ring, p)
    ensures MembersOf(st', ring, Retain(ids, gone)) == Unexpired(MembersOf(st, ring, ids), now)
  {
    if ids != [] {
      RetainExpired(st, st', ring, ids[1..], gone, now);
      var rest := Retain(ids[1..], gone);
      assert MembersOf(st, ring, ids)[1..] == MembersOf(st, ring, ids[1..]);
      assert ([ids[0]] + rest)[1..] == rest;
      assert ids[0] in ids;
    }
  }

  lemma KeyInPeersIn(ks: set<Key>, ring: Name, p: Peer)
    ensures p in PeersIn(ks, ring) <==> (ring, p) in ks
  {
    if (ring, p) in ks {
      var k := (ring, p);
      assert k in ks && k.0 == ring && k.1 == p;
    }
  }

  lemma EvictRing(st: Store, ring: Name, now: Time)
    requires ring in st.rings
    ensures var st' := WithoutKeys(st, ExpiredKeys(st, now));
      MembersOf(st', ring, st'.rings[ring]) == Unexpired(MembersOf(st, ring, st.rings[ring]), now)
  {
    var ks := ExpiredKeys(st, now);
    forall p: Peer
      ensures p in PeersIn(ks, ring) <==> (ring, p) in ks
    {
      KeyInPeersIn(ks, ring, p);
    }
    RetainExpired(st, WithoutKeys(st, ks), ring, st.rings[ring], PeersIn(ks, ring), now);
  }

  lemma WithoutKeysLeavesNoOrphans(st: Store, ks: set<Key>)
    requires NoOrphans(st)
    ensures NoOrphans(WithoutKeys(st, ks))
  {
    forall k
      ensures RowsHaveMember(WithoutKeys(st, ks), k)
    {
      assert RowsHaveMember(st, k);
      if IsMember(st, k) && k !in ks {
        KeyInPeersIn(ks, k.0, k.1);
        RetainElements(st.rings[k.0], PeersIn(ks, k.0));
      }
    }
  }

  lemma EvictRings(st: Store, now: Time)
    ensures View(WithoutKeys(st, ExpiredKeys(st, now))).rings == Evict(View(st), now).rings
  {
    var st' := WithoutKeys(st, ExpiredKeys(st, now));
    forall ring | ring in st.rings
      ensures MembersOf(st', ring, st'.rings[ring]) == Unexpired(MembersOf(st, ring, st.rings[ring]), now)
    {
      EvictRing(st, ring, now);
    }
  }

  lemma EvictView(st: Store, now: Time)
    ensures View(WithoutKeys(st, ExpiredKeys(st, now))) == Evict(View(st), now)
  {
    EvictRings(st, now);
  }

  lemma EvictRefines(st: Store, now: Time)
    requires Consistent(st)
    ensures var st' := WithoutKeys(st, ExpiredKeys(st, now));
      && Consistent(st')
      && View(st') == Evict(View(st), now)
      && ExpiredKeys(st, now) == Evicted(View(st), now)
  {
    EvictView(st, now);
    EvictKeepsWellFormed(View(st), now);
    EvictedAreExpiredKeys(st, now);
    WithoutKeysLeavesNoOrphans(st, ExpiredKeys(st, now));
  }

  lemma EvictedAreExpiredKeys(st: Store, now: Time)
    requires NoOrphans(st)
    ensures ExpiredKeys(st, now) == Evicted(View(st), now)
  {
    forall k | k in ExpiredKeys(st, now)
      ensures k in Evicted(View(st), now)
    {
      assert RowsHaveMember(st, k);
      var i :| 0 <= i < |st.rings[k.0]| && st.rings[k.0][i] == k.1;
      var m := View(st).rings[k.0][i];
      assert m in View(st).rings[k.0] && Expired(m, now) && k == (k.0, m.peer);
    }
  }

  // ---------------------------------------------------------------- associations

  lemma ResourcesUpdate(st: Store, resources: map<Bytes, seq<Association>>)
    ensures View(st.(resources := resources)) == View(st).(resources := resources)
  {
    var st' := st.(resources := resources);
    forall ring | ring in st.rings
      ensures MembersOf(st', ring, st.rings[ring]) == MembersOf(st, ring, st.rings[ring])
    {
      SameRowsSameMembers(st, st', ring, st.rings[ring]);
    }
  }

  lemma RemoveRingsRefines(st: Store, resource: Bytes)
    requires Consistent(st)
    ensures Consistent(st.(resources := st.resources - {resource}))
    ensures View(st.(resources := st.resources - {resource})) == RemoveRings(View(st), resource)
  {
    ResourcesUpdate(st, st.resources - {resource});
    StillNoOrphans(st, st.(resources := st.resources - {resource}));
    RemoveRingsKeepsWellFormed(View(st), resource);
  }

  function AddRingIn(st: Store, resource: Bytes, ring: Name, permissions: set<Permission>): Store {
    st.(resources := st.resources[resource := Associate(EntriesOf(st.resources, resource), ring, permissions)])
  }

  lemma AddRingRefines(st: Store, resource: Bytes, ring: Name, permissions: set<Permission>)
    requires Consistent(st) && AddRing(View(st), resource, ring, permissions).1.Ok?
    ensures Consistent(AddRingIn(st, resource, ring, permissions))
    ensures View(AddRingIn(st, resource, ring, permissions)) == AddRing(View(st), resource, ring, permissions).0
  {
    var st' := AddRingIn(st, resource, ring, permissions);
    ResourcesUpdate(st, st'.resources);
    AddRingKeepsWellFormed(View(st), resource, ring, permissions);
    StillNoOrphans(st, st');
  }

  lemma {:induction false} UnexpiredAppend(ms: seq<Member>, m: Member, now: Time)
    ensures Unexpired(ms + [m], now) == Unexpired(ms, now) + if Expired(m, now) then [] else [m]
  {
    if ms == [] {
      assert ms + [m] == [m];
    } else {
      UnexpiredAppend(ms[1..], m, now);
      assert (ms + [m])[1..] == ms[1..] + [m];
    }
  }

  /** The listing grows by each id that has not expired, with its label and expiry. */
  lemma {:induction false} MembersAppend(st: Store, ring: Name, ids: seq<Peer>, peer: Peer)
    ensures MembersOf(st, ring, ids + [peer]) == MembersOf(st, ring, ids) + [MemberOf(st, ring, peer)]
  {
    if ids == [] {
      assert ids + [peer] == [peer];
    } else {
      MembersAppend(st, ring, ids[1..], peer);
      assert (ids + [peer])[1..] == ids[1..] + [peer];
    }
  }

  lemma MembersGrow(st: Store, ring: Name, ids: seq<Peer>, i: nat)
    requires i < |ids|
    ensures MembersOf(st, ring, ids[..i + 1]) == MembersOf(st, ring, ids[..i]) + [MemberOf(st, ring, ids[i])]
  {
    assert ids[..i + 1] == ids[..i] + [ids[i]];
    MembersAppend(st, ring, ids[..i], ids[i]);
  }

  lemma ListingGrows(st: Store, ring: Name, ids: seq<Peer>, now: Time, i: nat)
    requires i < |ids|
    ensures Unexpired(MembersOf(st, ring, ids[..i + 1]), now) ==
            Unexpired(MembersOf(st, ring, ids[..i]), now)
            + if HasExpired(st, (ring, ids[i]), now) then [] else [MemberOf(st, ring, ids[i])]
  {
    MembersGrow(st, ring, ids, i);
    UnexpiredAppend(MembersOf(st, ring, ids[..i]), MemberOf(st, ring, ids[i]), now);
  }

  lemma LiveMemberInStore(st: Store, ring: Name, peer: Peer, now: Time)
    requires ring in st.rings
    ensures LiveMember(View(st).rings[ring], peer, now) <==>
            peer in st.rings[ring] && !HasExpired(st, (ring, peer), now)
  {
    var ids, ms := st.rings[ring], View(st).rings[ring];
    if peer in ids && !HasExpired(st, (ring, peer), now) {
      var i :| 0 <= i < |ids| && ids[i] == peer;
      assert ms[i] in ms && ms[i].peer == peer && !Expired(ms[i], now);
    }
  }
}
