/**
 The byte encodings of src/backends/redb/mod.rs: composite keys, NUL-separated ring names, permission bitfields,
     and expiries.
 */
module RedbCodec {
  import opened Types
  import opened Ring
  import opened Encoding

  // ---------------------------------------------------------------- member keys

  function MemberKey(ring: Name, peer: Peer): Bytes {
    ring + [0] + peer
  }

  /** The name, a NUL, and the 32 bytes of the peer; any 33 bytes or more are split there, whatever the separator. */
  lemma MemberKeyBytes(ring: Name, peer: Peer, key: Bytes)
    ensures var k := MemberKey(ring, peer);
      |k| == |ring| + 33 && k[..|ring|] == ring && k[|ring|] == 0 && k[|ring| + 1..] == peer
    ensures SplitMemberKey(key).Ok? <==> |key| >= 33
    ensures |key| >= 33 ==> SplitMemberKey(key).value == (key[..|key| - 33], key[|key| - 32..])
  {
    if |key| >= 33 {
      assert key[..|key| - 32][..|key| - 33] == key[..|key| - 33];
    }
  }

  method BuildMemberKey(ring: Name, peer: Peer) returns (key: Bytes)
    ensures key == MemberKey(ring, peer)
  {
    key := ring;
    key := key + [0];
    key := key + peer;
  }

  function SplitMemberKey(key: Bytes): Result<(Name, Peer)> {
    if |key| < 33 then Err(Storage)
    else
      var cut := |key| - 32;
      Ok((key[..cut][..cut - 1], key[cut..]))
  }

  /** `split_member_key` inverts `member_key`, whatever bytes the name has. */
  lemma SplitInvertsMemberKey(ring: Name, peer: Peer)
    ensures SplitMemberKey(MemberKey(ring, peer)) == Ok((ring, peer))
  {
    var key := MemberKey(ring, peer);
    assert key[|key| - 32..] == peer;
    assert key[..|key| - 32][..|key| - 33] == ring;
  }

  lemma MemberKeyInjective(ring: Name, peer: Peer, ring': Name, peer': Peer)
    requires MemberKey(ring, peer) == MemberKey(ring', peer')
    ensures ring == ring' && peer == peer'
  {
    SplitInvertsMemberKey(ring, peer);
    SplitInvertsMemberKey(ring', peer');
  }

  /** The rows `split_member_key` reads back faithfully: those with a NUL before the last 32 bytes. */
  lemma MemberKeyInvertsSplit(key: Bytes)
    ensures (exists ring, peer :: MemberKey(ring, peer) == key) <==> |key| >= 33 && key[|key| - 33] == 0
    ensures |key| >= 33 && key[|key| - 33] == 0 ==>
              MemberKey(SplitMemberKey(key).value.0, SplitMemberKey(key).value.1) == key
  {
    if |key| >= 33 && key[|key| - 33] == 0 {
      var (ring, peer) := SplitMemberKey(key).value;
      assert key == ring + [key[|key| - 33]] + peer;
      assert MemberKey(ring, peer) == key;
    }
  }

  // ---------------------------------------------------------------- permission keys

  const MAX_ID: nat := 0xFFFF

  /** The length prefix is `resource.len() as u16`, so it wraps for ids over 65535 bytes. */
  function PermKey(resource: Bytes, ring: Name): Bytes {
    U16ToLe(|resource| % 0x1_0000) + resource + ring
  }

  method BuildPermKey(resource: Bytes, ring: Name) returns (key: Bytes)
    ensures key == PermKey(resource, ring)
  {
    var len := |resource| % 0x1_0000;
    key := [];
    key := key + U16ToLe(len);
    key := key + resource;
    key := key + ring;
  }

  /** Two length bytes, the id, the name. */
  lemma PermKeyBytes(resource: Bytes, ring: Name)
    ensures var k := PermKey(resource, ring);
      && |k| == 2 + |resource| + |ring|
      && k[0] == |resource| % 256 && k[1] == |resource| / 256 % 256
      && k[2..2 + |resource|] == resource && k[2 + |resource|..] == ring
  {
  }

  /** Two permission keys are equal exactly when the wrapped lengths and the bytes after them are. */
  lemma PermKeysEqual(resource: Bytes, ring: Name, resource': Bytes, ring': Name)
    ensures PermKey(resource, ring) == PermKey(resource', ring') <==>
            |resource| % 0x1_0000 == |resource'| % 0x1_0000 && resource + ring == resource' + ring'
  {
    var k, k' := PermKey(resource, ring), PermKey(resource', ring');
    assert k[2..] == resource + ring && k'[2..] == resource' + ring';
    assert k == U16ToLe(|resource| % 0x1_0000) + (resource + ring);
    assert k' == U16ToLe(|resource'| % 0x1_0000) + (resource' + ring');
    if k == k' {
      assert k[0] == |resource| % 0x1_0000 % 256 && k[1] == |resource| % 0x1_0000 / 256;
      assert k'[0] == |resource'| % 0x1_0000 % 256 && k'[1] == |resource'| % 0x1_0000 / 256;
    }
  }

  /** Ids of at most 65535 bytes cannot be confused, whatever bytes they and the ring names contain. */
  lemma PermKeyInjective(resource: Bytes, ring: Name, resource': Bytes, ring': Name)
    requires |resource| <= MAX_ID && |resource'| <= MAX_ID
    requires PermKey(resource, ring) == PermKey(resource', ring')
    ensures resource == resource' && ring == ring'
  {
    PermKeysEqual(resource, ring, resource', ring');
    var whole, whole' := resource + ring, resource' + ring';
    assert whole[..|resource|] == resource && whole'[..|resource'|] == resource';
    assert whole[|resource|..] == ring && whole'[|resource'|..] == ring';
  }

  ghost predicate SamePermKey(resource: Bytes, ring: Name, resource': Bytes, ring': Name) {
    && ValidName(ring) && ValidName(ring')
    && resource != resource'
    && PermKey(resource, ring) == PermKey(resource', ring')
  }

  /**
   The composite key is documented to be unambiguous for arbitrary resource ids. It is not once the
   length wraps: ids of lengths `m` and `n` can share a row exactly when the lengths differ by a
   multiple of 65536.
   */
  lemma PermKeysCollideIff(m: nat, n: nat)
    ensures (exists resource, ring, resource', ring' ::
               |resource| == m && |resource'| == n && SamePermKey(resource, ring, resource', ring'))
            <==> m != n && m % 0x1_0000 == n % 0x1_0000
  {
    if m != n && m % 0x1_0000 == n % 0x1_0000 {
      if m < n {
        CollidingIds(m, n);
        var x := (k: nat) => seq(k, _ => 120 as byte);
        assert SamePermKey(x(m), x(n - m + 1), x(n), x(1));
      } else {
        CollidingIds(n, m);
        var x := (k: nat) => seq(k, _ => 120 as byte);
        assert SamePermKey(x(m), x(1), x(n), x(m - n + 1));
      }
    }
    forall resource, ring, resource', ring' |
      |resource| == m && |resource'| == n && SamePermKey(resource, ring, resource', ring')
      ensures m != n && m % 0x1_0000 == n % 0x1_0000
    {
      PermKeysEqual(resource, ring, resource', ring');
      assert (resource + ring)[..m] == resource && (resource' + ring')[..n] == resource';
    }
  }

  lemma CollidingIds(m: nat, n: nat)
    requires m < n && m % 0x1_0000 == n % 0x1_0000
    ensures SamePermKey(seq(m, _ => 120), seq(n - m + 1, _ => 120), seq(n, _ => 120), seq(1, _ => 120))
  {
    var short, tail: Bytes := seq(m, _ => 120), seq(n - m + 1, _ => 120);
    var long, last: Bytes := seq(n, _ => 120), seq(1, _ => 120);
    assert short + tail == long + last;
    PermKeysEqual(short, tail, long, last);
    assert forall i :: 0 <= i < |tail| ==> !WhitespaceAt(tail, i);
    assert forall i :: 0 <= i < |last| ==> !WhitespaceAt(last, i);
    assert |short| != |long|;
  }

  // ---------------------------------------------------------------- ring names

  /** The names with a NUL between each two. */
  function JoinNames(names: seq<Name>): Bytes {
    if names == [] then []
    else if |names| == 1 then names[0]
    else names[0] + [0] + JoinNames(names[1..])
  }

  lemma {:induction false} JoinAppend(names: seq<Name>, name: Name)
    ensures JoinNames(names + [name]) == if names == [] then name else JoinNames(names) + [0] + name
  {
    if names == [] {
      assert names + [name] == [name];
    } else {
      JoinAppend(names[1..], name);
      assert (names + [name])[1..] == names[1..] + [name];
    }
  }

  method EncodeRingNames(names: seq<Name>) returns (buf: Bytes)
    ensures buf == JoinNames(names)
  {
    buf := [];
    var first := true;
    for i := 0 to |names|
      invariant first <==> i == 0
      invariant buf == JoinNames(names[..i])
    {
      JoinAppend(names[..i], names[i]);
      assert names[..i + 1] == names[..i] + [names[i]];
      if !first {
        buf := buf + [0];
      }
      buf := buf + names[i];
      first := false;
    }
    assert names[..|names|] == names;
  }

  function FindNul(raw: Bytes): (i: nat)
    ensures i <= |raw|
    ensures i < |raw| ==> raw[i] == 0
    ensures NulFree(raw[..i])
  {
    if raw == [] then 0
    else if raw[0] == 0 then 0
    else
      var i := 1 + FindNul(raw[1..]);
      assert forall j :: 0 < j < i ==> raw[j] == raw[1..][..i - 1][j - 1];
      i
  }

  /** `raw.split(|&b| b == 0)` */
  function SplitAtNuls(raw: Bytes): seq<Name>
    decreases |raw|
  {
    var i := FindNul(raw);
    if i == |raw| then [raw] else [raw[..i]] + SplitAtNuls(raw[i + 1..])
  }

  function DecodeRingNames(raw: Bytes): seq<Name> {
    if raw == [] then [] else SplitAtNuls(raw)
  }

  lemma FindFirstNul(name: Name, rest: Bytes)
    requires NulFree(name)
    requires rest == [] || rest[0] == 0
    ensures FindNul(name + rest) == |name|
  {
    var raw := name + rest;
    var i := FindNul(raw);
    assert forall j :: 0 <= j < |name| ==> raw[j] == name[j] != 0;
    assert forall j :: 0 <= j < i ==> raw[j] == raw[..i][j] != 0;
    assert rest != [] ==> raw[|name|] == 0;
  }

  lemma {:induction false} SplitInvertsJoin(names: seq<Name>)
    requires names != []
    requires forall n :: n in names ==> NulFree(n)
    ensures SplitAtNuls(JoinNames(names)) == names
  {
    var raw := JoinNames(names);
    if |names| == 1 {
      FindFirstNul(names[0], []);
      assert names[0] + [] == raw;
    } else {
      var rest := [0] + JoinNames(names[1..]);
      assert raw == names[0] + rest;
      FindFirstNul(names[0], rest);
      assert raw[..|names[0]|] == names[0] && raw[|names[0]| + 1..] == JoinNames(names[1..]);
      SplitInvertsJoin(names[1..]);
    }
  }

  lemma {:induction false} JoinInvertsSplit(raw: Bytes)
    ensures SplitAtNuls(raw) != []
    ensures JoinNames(SplitAtNuls(raw)) == raw
    ensures forall n :: n in SplitAtNuls(raw) ==> NulFree(n)
    decreases |raw|
  {
    var i := FindNul(raw);
    if i < |raw| {
      JoinInvertsSplit(raw[i + 1..]);
      assert ([raw[..i]] + SplitAtNuls(raw[i + 1..]))[1..] == SplitAtNuls(raw[i + 1..]);
      assert raw == raw[..i] + [0] + raw[i + 1..];
    } else {
      assert raw[..i] == raw;
    }
  }

  /** One NUL between two names, and no other byte added. */
  lemma JoinedBytes(names: seq<Name>, name: Name)
    ensures JoinNames([]) == [] && JoinNames([name]) == [name][0]
    ensures names != [] ==> JoinNames(names + [name]) == JoinNames(names) + [0] + name
  {
    JoinAppend(names, name);
  }

  /** Which lists of names survive storage: NUL-free ones, except the list of one empty name. */
  lemma RingNamesRoundTripIff(names: seq<Name>)
    ensures DecodeRingNames(JoinNames(names)) == names <==>
            names != [[]] && forall n :: n in names ==> NulFree(n)
  {
    if names != [] {
      JoinInvertsSplit(JoinNames(names));
      if forall n :: n in names ==> NulFree(n) {
        SplitInvertsJoin(names);
        if JoinNames(names) == [] {
          assert |names| > 1 ==> 0 in JoinNames(names);
        }
      }
    }
  }

  /** Encoding any decoded row gives that row back. */
  lemma ReencodedRow(raw: Bytes)
    ensures JoinNames(DecodeRingNames(raw)) == raw
  {
    JoinInvertsSplit(raw);
  }

  // ---------------------------------------------------------------- permissions

  function PermissionBit(p: Permission): bv8 {
    match p
    case Read => 0x01
    case Write => 0x02
    case Delete => 0x04
  }

  /** What a bitfield grants. */
  function PermsOfByte(bits: bv8): set<Permission> {
    set p: Permission | bits & PermissionBit(p) != 0
  }

  function PermsToByte(permissions: seq<Permission>): bv8 {
    if permissions == [] then 0
    else PermsToByte(permissions[..|permissions| - 1]) | PermissionBit(permissions[|permissions| - 1])
  }

  lemma OrAddsBit(bits: bv8, p: Permission, q: Permission)
    ensures (bits | PermissionBit(p)) & PermissionBit(q) != 0 <==> bits & PermissionBit(q) != 0 || p == q
    ensures bits & 0xF8 == 0 ==> (bits | PermissionBit(p)) & 0xF8 == 0
    ensures bits | PermissionBit(p) != 0
  {
  }

  lemma OrAddsPermission(bits: bv8, p: Permission)
    ensures PermsOfByte(bits | PermissionBit(p)) == PermsOfByte(bits) + {p}
  {
    forall q: Permission
      ensures q in PermsOfByte(bits | PermissionBit(p)) <==> q in PermsOfByte(bits) + {p}
    {
      OrAddsBit(bits, p, q);
    }
  }

  /** The bitfield of a list grants exactly the listed permissions and has no other bit. */
  lemma {:induction false} PermsToByteMeaning(permissions: seq<Permission>)
    ensures PermsOfByte(PermsToByte(permissions)) == Elements(permissions)
    ensures PermsToByte(permissions) & 0xF8 == 0
    ensures PermsToByte(permissions) == 0 <==> permissions == []
  {
    if permissions == [] {
      NoBitsNoPermissions();
    } else {
      var front, last := permissions[..|permissions| - 1], permissions[|permissions| - 1];
      PermsToByteMeaning(front);
      OrAddsBit(PermsToByte(front), last, last);
      OrAddsPermission(PermsToByte(front), last);
      assert permissions == front + [last];
      assert Elements(permissions) == Elements(front) + {last};
    }
  }

  lemma NoBitsNoPermissions()
    ensures PermsOfByte(0) == {}
  {
    forall p: Permission
      ensures p !in PermsOfByte(0)
    {
      ZeroAnd(PermissionBit(p));
    }
  }

  lemma ZeroAnd(b: bv8)
    ensures 0 & b == 0
  {
  }

  /** Bitfields within `0b111` that grant the same are the same. */
  lemma ByteIsItsPermissions(a: bv8, b: bv8)
    requires a & 0xF8 == 0 && b & 0xF8 == 0
    requires PermsOfByte(a) == PermsOfByte(b)
    ensures a == b
  {
    assert (Read in PermsOfByte(a)) == (Read in PermsOfByte(b));
    assert (Write in PermsOfByte(a)) == (Write in PermsOfByte(b));
    assert (Delete in PermsOfByte(a)) == (Delete in PermsOfByte(b));
    SameBits(a, b);
  }

  lemma SameBits(a: bv8, b: bv8)
    requires a & 0xF8 == 0 && b & 0xF8 == 0
    requires (a & 1 != 0) == (b & 1 != 0)
    requires (a & 2 != 0) == (b & 2 != 0)
    requires (a & 4 != 0) == (b & 4 != 0)
    ensures a == b
  {
  }

  /** Bit 0 is `Read`, bit 1 `Write`, bit 2 `Delete`. */
  lemma BitMeaning(bits: bv8)
    ensures Read in PermsOfByte(bits) <==> bits & 0x01 != 0
    ensures Write in PermsOfByte(bits) <==> bits & 0x02 != 0
    ensures Delete in PermsOfByte(bits) <==> bits & 0x04 != 0
    ensures PermsToByte([Read]) == 1 && PermsToByte([Write]) == 2 && PermsToByte([Delete]) == 4
  {
    assert PermsToByte([Read]) == PermsToByte([]) | PermissionBit(Read);
    assert PermsToByte([Write]) == PermsToByte([]) | PermissionBit(Write);
    assert PermsToByte([Delete]) == PermsToByte([]) | PermissionBit(Delete);
  }

  method ByteToPerms(bits: bv8) returns (permissions: seq<Permission>)
    ensures permissions == InOrder(PermsOfByte(bits))
    ensures Read in permissions <==> bits & 0x01 != 0
    ensures Write in permissions <==> bits & 0x02 != 0
    ensures Delete in permissions <==> bits & 0x04 != 0
    ensures NoDuplicates(permissions)
  {
    permissions := [];
    if bits & 0x01 != 0 {
      permissions := permissions + [Read];
    }
    if bits & 0x02 != 0 {
      permissions := permissions + [Write];
    }
    if bits & 0x04 != 0 {
      permissions := permissions + [Delete];
    }
    BitMeaning(bits);
  }

  // ---------------------------------------------------------------- expiries

  /** `(secs, subsec_nanos)`, clamped to the epoch. */
  function EncodeExpiry(t: Time): (u64, u32) {
    var d := Clamp(t);
    (d / NANOS_PER_SEC, d % NANOS_PER_SEC)
  }

  function DecodeExpiry(row: (u64, u32)): Result<Time> {
    var t := row.0 * NANOS_PER_SEC + row.1;
    if t <= MAX_TIME then Ok(t) else Err(Storage)
  }

  function Clamp(t: Time): Time {
    if t < 0 then 0 else t
  }

  function ClampOption(expiresAt: Option<Time>): Option<Time> {
    match expiresAt
    case Some(t) => Some(Clamp(t))
    case None => None
  }

  /** A stored expiry never overflows on the way back, and comes back clamped to the epoch. */
  lemma ExpiryRoundTrip(t: Time)
    ensures DecodeExpiry(EncodeExpiry(t)) == Ok(Clamp(t))
  {
  }

  /** The row is the instant, or the epoch for an earlier one, in whole seconds and the nanoseconds left over. */
  lemma ExpiryRowMeaning(t: Time)
    ensures var (secs, nanos) := EncodeExpiry(t);
      && nanos < 1_000_000_000
      && secs * 1_000_000_000 + nanos == if t < 0 then 0 else t
    ensures Clamp(t) == if t < 0 then 0 else t
  {
  }

  /** Any row is an instant after the epoch, an error if that is more than 2^63 - 1 seconds and a bit away. */
  lemma StoredExpiryMeaning(secs: u64, nanos: u32)
    ensures DecodeExpiry((secs, nanos)).Ok? <==> secs + nanos / 1_000_000_000 <= 0x7FFF_FFFF_FFFF_FFFF
    ensures DecodeExpiry((secs, nanos)).Ok? ==> DecodeExpiry((secs, nanos)).value == secs * 1_000_000_000 + nanos
  {
  }
}
